/**
  The text repairs the reconciler applies to a model reply before decoding it
  (backend/app/services/translation_service.py lines 212-228; the same steps
  in app.py lines 38-51). Each regular-expression substitution is written out
  as a left-to-right scanner with the regex engine's semantics: at each
  position the pattern is tried; on a match the replacement is emitted and
  scanning resumes after the match, otherwise one character is copied.
 */
module Repairs {
  import opened Wrappers
  import opened Text

  const JsonFence: string := "```json"
  const Fence: string := "```"

  predicate NoTick(s: string) {
    forall k :: 0 <= k < |s| ==> s[k] != '`'
  }

  /** No character `a` is immediately followed by `b`. */
  predicate NoPair(s: string, a: char, b: char) {
    forall i :: 0 <= i < |s| - 1 ==> !(s[i] == a && s[i + 1] == b)
  }

  /** Characters a repair may delete or insert without changing the data: commas and whitespace. */
  predicate Significant(c: char) {
    c != ',' && !IsSpace(c)
  }

  // ---------------------------------------------------------------- fences

  /**
    Keep only the fenced block: with a "```json" fence, the piece between the
    first "```json" and the next "```json" (or the end), cut at its first
    "```"; otherwise, with a plain fence, the piece between the first and
    second "```". Either piece is trimmed. Without a fence the text is kept.
   */
  function StripFences(t: string): (r: string)
    ensures !Contains(t, Fence) ==> r == t
    ensures Contains(t, Fence) ==> r == Trim(r)
  {
    JsonFenceHasFence(t);
    if Contains(t, JsonFence) then Trim(Before(Before(After(t, JsonFence), JsonFence), Fence))
    else if Contains(t, Fence) then Trim(Before(After(t, Fence), Fence))
    else t
  }

  lemma JsonFenceHasFence(t: string)
    ensures Contains(t, JsonFence) ==> Contains(t, Fence)
  {
    if Contains(t, JsonFence) {
      var i := Find(t, JsonFence, 0).value;
      assert t[i..i + 3] == t[i..i + 7][..3];
      ContainsAt(t, Fence, i);
    }
  }

  /** `pat` first occurs in `s` at `i`. */
  lemma FirstOccurrence(s: string, pat: string, i: nat)
    requires StartsAt(s, i, pat)
    requires forall k :: 0 <= k < i ==> !StartsAt(s, k, pat)
    ensures Find(s, pat, 0) == Some(i)
  {
  }

  /** A pattern starting with a backtick cannot occur inside backtick-free text. */
  lemma NoTickNoFence(s: string, pat: string, k: nat)
    requires |pat| > 0 && pat[0] == '`'
    requires k < |s| && s[k] != '`'
    ensures !StartsAt(s, k, pat)
  {
    if k + |pat| <= |s| {
      assert s[k..k + |pat|][0] == s[k];
    }
  }

  /** Cutting `body + rest` at its first "```" gives `body` when `body` has no backtick. */
  lemma BeforeFenceOfPlain(body: string, rest: string)
    requires NoTick(body)
    requires rest == "" || StartsAt(rest, 0, Fence)
    ensures Before(body + rest, Fence) == body
  {
    var s := body + rest;
    forall k | 0 <= k < |body| ensures !StartsAt(s, k, Fence) {
      NoTickNoFence(s, Fence, k);
    }
    if rest == "" {
      assert s == body;
      forall k | |body| <= k <= |s| ensures !StartsAt(s, k, Fence) { }
    } else {
      assert s[|body|..|body| + 3] == rest[..3];
      FirstOccurrence(s, Fence, |body|);
    }
  }

  /**
    A reply wrapped in a "```json" fence is reduced to the trimmed block, as
    long as the text before the fence and the block hold no backtick and the
    closing fence is not followed by another backtick.
   */
  lemma {:induction false} JsonFencedBlock(pre: string, body: string, post: string)
    requires NoTick(pre) && NoTick(body)
    requires post == "" || post[0] != '`'
    ensures StripFences(pre + JsonFence + body + Fence + post) == Trim(body)
  {
    var t := pre + JsonFence + body + Fence + post;
    assert t[|pre|..|pre| + 7] == JsonFence;
    forall k | 0 <= k < |pre| ensures !StartsAt(t, k, JsonFence) {
      NoTickNoFence(t, JsonFence, k);
    }
    FirstOccurrence(t, JsonFence, |pre|);
    assert After(t, JsonFence) == body + Fence + post;
    BlockAfterJsonFence(body, post);
  }

  /** The text after the opening "```json", cut twice as the reconciler does, is the block. */
  lemma BlockAfterJsonFence(body: string, post: string)
    requires NoTick(body)
    requires post == "" || post[0] != '`'
    ensures Before(Before(body + Fence + post, JsonFence), Fence) == body
  {
    var x := body + Fence + post;
    forall k | 0 <= k < |body| ensures !StartsAt(x, k, JsonFence) {
      NoTickNoFence(x, JsonFence, k);
    }
    forall k | |body| < k < |body| + 3 ensures !StartsAt(x, k, JsonFence) {
      if k + 7 <= |x| {
        assert x[k..k + 7][|body| + 3 - k] == x[|body| + 3] == post[0];
      }
    }
    var y := Before(x, JsonFence);
    match Find(x, JsonFence, 0)
    case None =>
      assert y == body + (Fence + post);
      assert StartsAt(Fence + post, 0, Fence);
      BeforeFenceOfPlain(body, Fence + post);
    case Some(i) =>
      if i == |body| {
        assert y == body + "";
        BeforeFenceOfPlain(body, "");
      } else {
        assert y == body + x[|body|..i];
        assert x[|body|..i][0..3] == x[|body|..|body| + 3] == Fence;
        BeforeFenceOfPlain(body, x[|body|..i]);
      }
  }

  /**
    The side condition on what follows the closing fence is needed: when it
    starts with a backtick and goes on to spell "json", the second cut
    finds a "```json" that overlaps the closing fence and keeps a backtick
    of it.
   */
  lemma TickAfterFenceLeaks()
    ensures StripFences(JsonFence + "x" + Fence + "`json") == "x`"
  {
    var t := JsonFence + "x" + Fence + "`json";
    assert t[0..7] == JsonFence;
    FirstOccurrence(t, JsonFence, 0);
    var u := t[7..];
    assert u == "x````json";
    LeakCut(u);
    assert !IsSpace('x') && !IsSpace('`');
  }

  /** The two cuts of the text after the opening fence. */
  lemma LeakCut(u: string)
    requires u == "x````json"
    ensures Before(Before(u, JsonFence), Fence) == "x`"
  {
    assert u[2..9] == JsonFence;
    assert !StartsAt(u, 0, JsonFence) && !StartsAt(u, 1, JsonFence) by {
      assert u[0..7][0] == 'x' && u[1..8][3] == '`';
    }
    FirstOccurrence(u, JsonFence, 2);
    assert u[..2] == "x`";
    var v := "x`";
    assert !StartsAt(v, 0, Fence) && !StartsAt(v, 1, Fence) && !StartsAt(v, 2, Fence);
    assert Find(v, Fence, 0) == None;
  }

  /** A reply wrapped in a plain "```" fence is reduced to the trimmed block. */
  lemma {:induction false} PlainFencedBlock(pre: string, body: string, post: string)
    requires NoTick(pre) && NoTick(body)
    requires !Contains(pre + Fence + body + Fence + post, JsonFence)
    ensures StripFences(pre + Fence + body + Fence + post) == Trim(body)
  {
    var t := pre + Fence + body + Fence + post;
    assert t[|pre|..|pre| + 3] == Fence;
    forall k | 0 <= k < |pre| ensures !StartsAt(t, k, Fence) {
      NoTickNoFence(t, Fence, k);
    }
    FirstOccurrence(t, Fence, |pre|);
    var x := After(t, Fence);
    assert x == body + (Fence + post);
    assert StartsAt(Fence + post, 0, Fence);
    BeforeFenceOfPlain(body, Fence + post);
  }

  // ---------------------------------------------------------- line comments

  // The pattern `\s*//.*` tried at the start of `s`: where the match ends.
  function LineCommentAt(s: string): Option<nat> {
    var j := SkipWhile(s, 0, IsSpace);
    if StartsAt(s, j, "//") then Some(SkipWhile(s, j + 2, NotNewline)) else None
  }

  predicate NotNewline(c: char) {
    c != '\n'
  }

  // `re.sub(r'\s*//.*', '', s)`: every `//` is deleted with the rest of its
  // line and the whitespace (line breaks included) before it, wherever it
  // stands, inside string values too. No `//` survives, and text without one
  // is untouched.
  function StripLineComments(s: string): (r: string)
    ensures NoPair(r, '/', '/')
    ensures NoPair(s, '/', '/') ==> r == s
    ensures |r| <= |s|
    ensures |r| > 0 ==> r[0] == s[0] || r[0] == '\n'
    decreases |s|
  {
    if |s| == 0 then ""
    else
      match LineCommentAt(s)
      case Some(e) =>
        CommentFound(s);
        StripLineComments(s[e..])
      case None =>
        NoCommentHere(s);
        var rest := StripLineComments(s[1..]);
        ConsNoPair(s, rest);
        [s[0]] + rest
  }

  /** A comment found at the start of a line: the text holds `//`, and the cut ends at a newline or at the end. */
  lemma CommentFound(s: string)
    requires LineCommentAt(s).Some?
    ensures !NoPair(s, '/', '/')
    ensures 2 <= LineCommentAt(s).value <= |s|
    ensures LineCommentAt(s).value < |s| ==> s[LineCommentAt(s).value] == '\n'
  {
    var j := SkipWhile(s, 0, IsSpace);
    assert s[j..j + 2] == "//";
    assert s[j] == s[j..j + 2][0] == '/';
    assert s[j + 1] == s[j..j + 2][1] == '/';
  }

  /** With no comment at the start, a leading `/` is not followed by another. */
  lemma NoCommentHere(s: string)
    requires |s| > 0
    requires LineCommentAt(s).None?
    ensures s[0] == '/' && |s| > 1 ==> s[1] != '/'
  {
    if s[0] == '/' && |s| > 1 {
      assert s[0..2] == [s[0], s[1]];
    }
  }

  /** Copying the first character in front of a stripped tail keeps `//` out. */
  lemma ConsNoPair(s: string, rest: string)
    requires |s| > 0
    requires s[0] == '/' && |s| > 1 ==> s[1] != '/'
    requires NoPair(rest, '/', '/')
    requires |rest| <= |s| - 1
    requires |rest| > 0 ==> rest[0] == s[1] || rest[0] == '\n'
    requires NoPair(s[1..], '/', '/') ==> rest == s[1..]
    ensures NoPair([s[0]] + rest, '/', '/')
    ensures NoPair(s, '/', '/') ==> [s[0]] + rest == s
  {
    var r := [s[0]] + rest;
    assert forall i :: 1 <= i < |r| ==> r[i] == rest[i - 1];
    if NoPair(s, '/', '/') {
      forall i | 0 <= i < |s[1..]| - 1 ensures !(s[1..][i] == '/' && s[1..][i + 1] == '/') {
        assert s[1..][i] == s[i + 1] && s[1..][i + 1] == s[i + 2];
      }
      assert r == [s[0]] + s[1..] == s;
    }
  }

  /**
    A value that contains `//` loses everything from there to the end of its
    line: with no whitespace and no earlier `//` in `a`, `a + "//" + b` for a
    one-line `b` comes out as `a`.
   */
  lemma {:induction false} CutAtDoubleSlash(a: string, b: string)
    requires forall k :: 0 <= k < |a| ==> !IsSpace(a[k])
    requires NoPair(a + "/", '/', '/')
    requires '\n' !in b
    ensures StripLineComments(a + "//" + b) == a
    decreases |a|
  {
    if |a| == 0 {
      CommentToEnd(b);
      assert a + "//" + b == "//" + b;
    } else {
      CutStep(a, b);
      CutAtDoubleSlash(a[1..], b);
    }
  }

  /** A comment that starts the text and runs to its end leaves nothing. */
  lemma CommentToEnd(b: string)
    requires '\n' !in b
    ensures StripLineComments("//" + b) == ""
  {
    var s := "//" + b;
    assert s[0] == '/' && s[1] == '/';
    assert s[0..2] == "//";
    SkipWhileIs(s, 0, IsSpace, 0);
    forall k | 2 <= k < |s| ensures NotNewline(s[k]) {
      assert s[k] == b[k - 2];
    }
    SkipWhileIs(s, 2, NotNewline, |s|);
    assert LineCommentAt(s) == Some(|s|);
  }

  /** Before the `//`, the first character is copied and the rest meets the same conditions. */
  lemma CutStep(a: string, b: string)
    requires |a| > 0
    requires forall k :: 0 <= k < |a| ==> !IsSpace(a[k])
    requires NoPair(a + "/", '/', '/')
    ensures StripLineComments(a + "//" + b) == [a[0]] + StripLineComments(a[1..] + "//" + b)
    ensures forall k :: 0 <= k < |a[1..]| ==> !IsSpace(a[1..][k])
    ensures NoPair(a[1..] + "/", '/', '/')
  {
    var s := a + "//" + b;
    assert s[0] == a[0] && (a + "/")[0] == a[0];
    assert |a| > 1 ==> s[1] == a[1] == (a + "/")[1];
    assert |a| == 1 ==> (a + "/")[1] == '/';
    assert s[0..2] == [s[0], s[1]];
    assert LineCommentAt(s) == None;
    assert s[1..] == a[1..] + "//" + b;
    forall i | 0 <= i < |a[1..] + "/"| - 1 ensures !((a[1..] + "/")[i] == '/' && (a[1..] + "/")[i + 1] == '/') {
      assert (a[1..] + "/")[i] == (a + "/")[i + 1];
      assert (a[1..] + "/")[i + 1] == (a + "/")[i + 2];
    }
    forall k | 0 <= k < |a[1..]| ensures !IsSpace(a[1..][k]) {
      assert a[1..][k] == a[k + 1];
    }
  }

  /** So a URL value is cut after its scheme. */
  lemma UrlValueIsCut()
    ensures StripLineComments("\"http://x.org\"") == "\"http:"
  {
    assert "\"http://x.org\"" == "\"http:" + "//" + "x.org\"";
    CutAtDoubleSlash("\"http:", "x.org\"");
  }

  /** One step of `StripLineComments` where no comment starts: the first character is copied. */
  lemma LineCopyStep(s: string)
    requires |s| > 0 && LineCommentAt(s).None?
    ensures StripLineComments(s) == [s[0]] + StripLineComments(s[1..])
  {
  }

  /**
    A comment is cut up to its line break and no further: what follows the
    newline is processed on its own, as if the text started there.
   */
  lemma LineCommentEndsAtNewline(a: string, b: string, c: string)
    requires '\n' !in b
    ensures StripLineComments(a + "//" + b + "\n" + c) == StripLineComments(a + "//" + b) + StripLineComments("\n" + c)
  {
    var p, q := "//" + b, "\n" + c;
    CommentLineFree(b);
    SpliceHead(a, "//", b);
    SpliceHead(a + p, "\n", c);
    SpliceHead(a, p, q);
    LineCutBefore(a, p, q);
  }

  lemma CommentLineFree(b: string)
    requires '\n' !in b
    ensures '\n' !in "//" + b
  {
    var p := "//" + b;
    forall k | 2 <= k < |p| ensures p[k] != '\n' {
      assert p[k] == b[k - 2];
    }
  }

  /** `LineCommentEndsAtNewline` with the comment line `p` and the text `q` from its line break on. */
  lemma {:induction false} LineCutBefore(a: string, p: string, q: string)
    requires |p| >= 2 && p[0] == '/' && p[1] == '/' && '\n' !in p
    requires |q| > 0 && q[0] == '\n'
    ensures StripLineComments(a + (p + q)) == StripLineComments(a + p) + StripLineComments(q)
    decreases |a|
  {
    LineCommentAgrees(a, p, q);
    if |a| == 0 {
      LineCutFromComment(a, p, q, |p|);
    } else {
      match LineCommentAt(a + p)
      case Some(e) =>
        if e == |a + p| {
          LineCutFromComment(a, p, q, e);
        } else {
          CommentFound(a + p);
          LineCutBefore(a[e..], p, q);
          LineCutInside(a, p, q, e);
        }
      case None =>
        LineCutBefore(a[1..], p, q);
        LineCutCopy(a, p, q);
    }
  }

  /** The match that reaches the line break removes everything before it. */
  lemma LineCutFromComment(a: string, p: string, q: string, e: nat)
    requires |p| >= 2 && p[0] == '/' && p[1] == '/' && '\n' !in p
    requires e == |a + p|
    requires |a| == 0 || LineCommentAt(a + p) == Some(e)
    requires LineCommentAt(a + (p + q)) == LineCommentAt(a + p)
    ensures StripLineComments(a + (p + q)) == StripLineComments(a + p) + StripLineComments(q)
  {
    if |a| == 0 {
      assert a + p == p && a + (p + q) == p + q;
      LineCommentWhole(p);
    }
    assert (a + (p + q))[e..] == q && (a + p)[e..] == [];
  }

  /** A match that ends inside `a` leaves the same remainder in both texts. */
  lemma LineCutInside(a: string, p: string, q: string, e: nat)
    requires 0 < e < |a|
    requires LineCommentAt(a + p) == Some(e) && LineCommentAt(a + (p + q)) == Some(e)
    requires StripLineComments(a[e..] + (p + q)) == StripLineComments(a[e..] + p) + StripLineComments(q)
    ensures StripLineComments(a + (p + q)) == StripLineComments(a + p) + StripLineComments(q)
  {
    SliceConcat(a, p + q, e);
    SliceConcat(a, p, e);
  }

  /** Dropping a prefix of the first part of a concatenation. */
  lemma SliceConcat<T>(a: seq<T>, t: seq<T>, e: nat)
    requires e <= |a|
    ensures (a + t)[e..] == a[e..] + t
  {
  }

  /** Where no comment starts, both texts copy the same first character. */
  lemma LineCutCopy(a: string, p: string, q: string)
    requires |a| > 0
    requires LineCommentAt(a + p).None? && LineCommentAt(a + (p + q)).None?
    requires StripLineComments(a[1..] + (p + q)) == StripLineComments(a[1..] + p) + StripLineComments(q)
    ensures StripLineComments(a + (p + q)) == StripLineComments(a + p) + StripLineComments(q)
  {
    SliceConcat(a, p + q, 1);
    SliceConcat(a, p, 1);
    LineCopyStep(a + (p + q));
    LineCopyStep(a + p);
    SpliceHead([a[0]], StripLineComments(a[1..] + p), StripLineComments(q));
  }

  /** A comment line that starts the text is matched to its end. */
  lemma LineCommentWhole(p: string)
    requires |p| >= 2 && p[0] == '/' && p[1] == '/' && '\n' !in p
    ensures LineCommentAt(p) == Some(|p|)
  {
    SkipWhileIs(p, 0, IsSpace, 0);
    assert p[0..2] == "//";
    SkipWhileIs(p, 2, NotNewline, |p|);
  }

  /**
    The comment pattern tried at the start finds the same match whether or
    not the line break and the text after it follow: it ends inside `a` or
    exactly where that line break stands.
   */
  lemma LineCommentAgrees(a: string, p: string, q: string)
    requires |p| >= 2 && p[0] == '/' && p[1] == '/' && '\n' !in p
    requires |q| > 0 && q[0] == '\n'
    ensures LineCommentAt(a + (p + q)) == LineCommentAt(a + p)
    ensures LineCommentAt(a + p).Some? ==> LineCommentAt(a + p).value < |a| || LineCommentAt(a + p).value == |a + p|
  {
    var long, short := a + (p + q), a + p;
    assert forall k :: 0 <= k < |short| ==> long[k] == short[k];
    assert short[|a|] == '/' && long[|short|] == '\n';
    var j := SkipWhile(short, 0, IsSpace);
    SkipWhileIs(long, 0, IsSpace, j);
    if j + 2 <= |short| {
      assert long[j..j + 2] == short[j..j + 2];
      var e := SkipWhile(short, j + 2, NotNewline);
      forall k | |a| <= k < |short| ensures short[k] != '\n' {
        assert short[k] == p[k - |a|];
      }
      SkipWhileIs(long, j + 2, NotNewline, e);
    }
  }

  // --------------------------------------------------------- block comments

  // The pattern `/\*.*?\*/` (with DOTALL) tried at the start of `s`: an
  // opening "/*" and the first "*/" after it, across lines.
  function BlockCommentAt(s: string): (r: Option<nat>)
    ensures r.Some? ==> 4 <= r.value <= |s| && s[0] == '/' && s[1] == '*'
  {
    if StartsAt(s, 0, "/*") then
      assert s[0..2][0] == s[0] && s[0..2][1] == s[1];
      match Find(s, "*/", 2)
      case Some(j) => Some(j + 2)
      case None => None
    else None
  }

  // `re.sub(r'/\*.*?\*/', '', s, flags=re.DOTALL)`: each comment opened by
  // "/*" is deleted up to the nearest "*/"; an unclosed "/*" is kept.
  function StripBlockComments(s: string): (r: string)
    ensures NoPair(s, '/', '*') ==> r == s
    ensures |r| <= |s|
    decreases |s|
  {
    if |s| == 0 then ""
    else
      match BlockCommentAt(s)
      case Some(e) =>
        assert !NoPair(s, '/', '*') by { assert s[0] == '/' && s[1] == '*'; }
        StripBlockComments(s[e..])
      case None =>
        var rest := StripBlockComments(s[1..]);
        assert NoPair(s, '/', '*') ==> NoPair(s[1..], '/', '*') by {
          if NoPair(s, '/', '*') {
            forall i | 0 <= i < |s[1..]| - 1 ensures !(s[1..][i] == '/' && s[1..][i + 1] == '*') {
              assert s[1..][i] == s[i + 1] && s[1..][i + 1] == s[i + 2];
            }
          }
        }
        assert NoPair(s, '/', '*') ==> [s[0]] + s[1..] == s;
        [s[0]] + rest
  }

  /** `pat` first occurs in `s` at or after `from` at `i`. */
  lemma FirstFrom(s: string, pat: string, from: nat, i: nat)
    requires from <= i && StartsAt(s, i, pat)
    requires forall k :: from <= k < i ==> !StartsAt(s, k, pat)
    ensures Find(s, pat, from) == Some(i)
  {
  }

  /** A comment at the front is deleted whole when its body holds no "*" directly before "/". */
  lemma LeadingBlockComment(c: string, rest: string)
    requires NoPair(c, '*', '/')
    ensures StripBlockComments("/*" + c + "*/" + rest) == StripBlockComments(rest)
  {
    var s := "/*" + c + "*/" + rest;
    assert s[0..2] == "/*";
    forall k | 2 <= k < 2 + |c| ensures !StartsAt(s, k, "*/") {
      if k + 2 <= |s| {
        assert s[k..k + 2] == [s[k], s[k + 1]];
        assert s[k] == c[k - 2];
        assert k + 1 < 2 + |c| ==> s[k + 1] == c[k - 1];
        assert k + 1 == 2 + |c| ==> s[k + 1] == '*';
      }
    }
    assert s[2 + |c|..4 + |c|] == "*/";
    FirstFrom(s, "*/", 2, 2 + |c|);
    assert BlockCommentAt(s) == Some(4 + |c|);
    assert s[4 + |c|..] == rest;
  }

  /** One step of `StripBlockComments` where no comment starts: the first character is copied. */
  lemma BlockCopyStep(s: string)
    requires |s| > 0 && BlockCommentAt(s).None?
    ensures StripBlockComments(s) == [s[0]] + StripBlockComments(s[1..])
  {
  }

  /**
    Text before the first comment is kept, the comment up to its nearest
    closing is deleted, and the rest is processed on its own.
   */
  lemma BlockCommentCut(a: string, c: string, rest: string)
    requires NoPair(a, '/', '*') && NoPair(c, '*', '/')
    ensures StripBlockComments(a + "/*" + c + "*/" + rest) == a + StripBlockComments(rest)
  {
    var tail := "/*" + c + "*/" + rest;
    assert a + "/*" + c + "*/" + rest == a + tail;
    BlockPrefixKept(a, tail);
    LeadingBlockComment(c, rest);
  }

  /** Text in which no comment opens is copied in front of whatever follows from a `/`. */
  lemma {:induction false} BlockPrefixKept(a: string, tail: string)
    requires NoPair(a, '/', '*')
    requires |tail| > 0 && tail[0] == '/'
    ensures StripBlockComments(a + tail) == a + StripBlockComments(tail)
    decreases |a|
  {
    if |a| == 0 {
      assert a + tail == tail;
    } else {
      BlockNotAtStart(a, tail);
      BlockCopyStep(a + tail);
      NoPairDrop(a, '/', '*');
      BlockPrefixKept(a[1..], tail);
      ConsRegroup(a, tail, StripBlockComments(tail));
    }
  }

  /** Before the comment's own `/`, no comment opens at the start. */
  lemma BlockNotAtStart(a: string, tail: string)
    requires |a| > 0 && NoPair(a, '/', '*')
    requires |tail| > 0 && tail[0] == '/'
    ensures BlockCommentAt(a + tail).None?
    ensures (a + tail)[0] == a[0] && (a + tail)[1..] == a[1..] + tail
  {
    var s := a + tail;
    if |a| > 1 {
      assert !(a[0] == '/' && a[1] == '*');
      assert s[0..2] == [a[0], a[1]];
    } else {
      assert s[0..2] == [a[0], '/'];
    }
  }

  /** `NoPair` holds of every suffix. */
  lemma NoPairDrop(s: string, x: char, y: char)
    requires |s| > 0 && NoPair(s, x, y)
    ensures NoPair(s[1..], x, y)
  {
    forall i | 0 <= i < |s[1..]| - 1 ensures !(s[1..][i] == x && s[1..][i + 1] == y) {
      assert s[1..][i] == s[i + 1] && s[1..][i + 1] == s[i + 2];
    }
  }

  /** Putting the first character back in front of a processed remainder. */
  lemma ConsRegroup(a: string, tail: string, r: string)
    requires |a| > 0
    ensures [(a + tail)[0]] + (a[1..] + r) == a + r
  {
    assert a == [a[0]] + a[1..];
  }

  // With no star-slash anywhere, even an opened comment is never closed, and
  // the text is kept whole.
  lemma {:induction false} UnclosedBlockKept(s: string)
    requires NoPair(s, '*', '/')
    ensures StripBlockComments(s) == s
    decreases |s|
  {
    if |s| > 0 {
      NeverClosed(s);
      BlockCopyStep(s);
      NoPairDrop(s, '*', '/');
      UnclosedBlockKept(s[1..]);
      assert [s[0]] + s[1..] == s;
    }
  }

  /** Without a star-slash pair, no comment is found at the start. */
  lemma NeverClosed(s: string)
    requires NoPair(s, '*', '/')
    ensures BlockCommentAt(s).None?
  {
    if 2 <= |s| {
      forall k | 2 <= k <= |s| ensures !StartsAt(s, k, "*/") {
        if k + 2 <= |s| {
          assert s[k..k + 2] == [s[k], s[k + 1]];
        }
      }
      assert Find(s, "*/", 2).None?;
    }
  }

  // -------------------------------------------------------- trailing commas

  /** The pattern `,\s*}` (or `,\s*]`) tried at the start of `s`: where the match ends. */
  function TrailingCommaAt(s: string, close: char): (r: Option<nat>)
    ensures r.Some? ==> 2 <= r.value <= |s| && s[0] == ',' && s[r.value - 1] == close
    ensures r.Some? ==> forall k :: 1 <= k < r.value - 1 ==> IsSpace(s[k])
  {
    if |s| > 0 && s[0] == ',' then
      var j := SkipWhile(s, 1, IsSpace);
      if j < |s| && s[j] == close then Some(j + 1) else None
    else None
  }

  /** What a matched trailing comma keeps of the data: the closing bracket alone. */
  lemma TrailingCommaContent(s: string, close: char, e: nat)
    requires TrailingCommaAt(s, close) == Some(e)
    ensures Filter([close], Significant) == Filter(s[..e], Significant)
  {
    assert s[..e] == s[..e - 1] + [close];
    FilterConcat(s[..e - 1], [close], Significant);
    FilterNone(s[..e - 1], Significant);
  }

  /**
    `re.sub(r',\s*}', '}', s)` and `re.sub(r',\s*\]', ']', s)`: a comma
    followed by blank space and the closing bracket is dropped together with
    the blank space. Only commas and whitespace are ever removed.
   */
  function DropTrailingCommas(s: string, close: char): (r: string)
    ensures Filter(r, Significant) == Filter(s, Significant)
    ensures ',' !in s ==> r == s
    ensures |r| <= |s|
    decreases |s|
  {
    if |s| == 0 then ""
    else
      match TrailingCommaAt(s, close)
      case Some(e) =>
        var rest := DropTrailingCommas(s[e..], close);
        TrailingCommaContent(s, close, e);
        FilterSplice(s, e, [close], rest, Significant);
        [close] + rest
      case None =>
        var rest := DropTrailingCommas(s[1..], close);
        assert s[..1] == [s[0]];
        FilterSplice(s, 1, [s[0]], rest, Significant);
        assert ',' !in s ==> ',' !in s[1..] && s == [s[0]] + s[1..];
        [s[0]] + rest
  }

  /** A doubled comma defeats the repair: one pass leaves a comma right before the bracket. */
  lemma DoubledCommaSurvives()
    ensures DropTrailingCommas(",,}", '}') == ",}"
  {
    assert TrailingCommaAt(",,}", '}') == None;
    assert ",,}"[1..] == ",}";
    assert TrailingCommaAt(",}", '}') == Some(2);
    assert ",}"[2..] == "";
  }

  /** `,\s*` then `close`, spanning `s[..e]`. */
  predicate TrailingCommaShape(s: string, close: char, e: nat) {
    && 2 <= e <= |s| && s[0] == ',' && s[e - 1] == close
    && forall k :: 1 <= k < e - 1 ==> IsSpace(s[k])
  }

  /**
    The pattern matches at the start exactly when a comma, blank space and
    the closer begin the text; the closer is not blank, so the match is the
    shortest such prefix.
   */
  lemma TrailingCommaAtShape(s: string, close: char, e: nat)
    requires close == '}' || close == ']'
    ensures TrailingCommaAt(s, close) == Some(e) <==> TrailingCommaShape(s, close, e)
  {
    if TrailingCommaShape(s, close, e) {
      SkipWhileIs(s, 1, IsSpace, e - 1);
    }
  }

  /** Where no trailing comma starts, `DropTrailingCommas` copies the text. */
  lemma {:induction false} DropCopies(s: string, close: char, n: nat)
    requires n <= |s|
    requires forall k :: 0 <= k < n ==> TrailingCommaAt(s[k..], close).None?
    ensures DropTrailingCommas(s, close) == s[..n] + DropTrailingCommas(s[n..], close)
    decreases n
  {
    if n > 0 {
      assert s[0..] == s;
      var t := s[1..];
      forall k | 0 <= k < n - 1 ensures TrailingCommaAt(t[k..], close).None? {
        assert t[k..] == s[k + 1..];
      }
      DropCopies(t, close, n - 1);
      assert t[n - 1..] == s[n..];
      ConsPrefix(s, n, DropTrailingCommas(s[n..], close));
    }
  }

  /**
    The rewrite at the first trailing comma: everything before it is kept,
    the comma and the blank space after it are deleted, and the closer
    stays.
   */
  lemma DropTrailingCommasAt(s: string, close: char, n: nat, e: nat)
    requires close == '}' || close == ']'
    requires n <= |s| && TrailingCommaShape(s[n..], close, e)
    requires forall k :: 0 <= k < n ==> TrailingCommaAt(s[k..], close).None?
    ensures DropTrailingCommas(s, close) == s[..n] + [close] + DropTrailingCommas(s[n + e..], close)
  {
    var t := s[n..];
    assert t[e..] == s[n + e..];
    DropCopies(s, close, n);
    DropAtStart(t, close, e);
    SpliceHead(s[..n], [close], DropTrailingCommas(t[e..], close));
  }

  /** One step of `DropTrailingCommas` at a trailing comma that starts the text. */
  lemma DropAtStart(t: string, close: char, e: nat)
    requires close == '}' || close == ']'
    requires TrailingCommaShape(t, close, e)
    ensures DropTrailingCommas(t, close) == [close] + DropTrailingCommas(t[e..], close)
  {
    TrailingCommaAtShape(t, close, e);
  }

  /** Regrouping a three-part concatenation. */
  lemma SpliceHead<T>(a: seq<T>, b: seq<T>, c: seq<T>)
    ensures a + (b + c) == a + b + c
  {
  }

  // ---------------------------------------------------------- bare keys

  predicate IsWordChar(c: char) {
    ('a' <= c <= 'z') || ('A' <= c <= 'Z') || ('0' <= c <= '9') || c == '_'
  }

  /**
    The pattern `([{,]\s*)([a-zA-Z0-9_]+)(\s*:)` tried at the start of `s`:
    the start `j` and end `k` of the word and the index `m` of the colon.
   */
  function BareKeyAt(s: string): (r: Option<(nat, nat, nat)>)
    ensures r.Some? ==> 0 < r.value.0 < r.value.1 <= r.value.2 < |s|
    ensures r.Some? ==> s[0] == '{' || s[0] == ','
  {
    if |s| > 0 && (s[0] == '{' || s[0] == ',') then
      var j := SkipWhile(s, 1, IsSpace);
      var k := SkipWhile(s, j, IsWordChar);
      var m := SkipWhile(s, k, IsSpace);
      if j < k && m < |s| && s[m] == ':' then Some((j, k, m)) else None
    else None
  }

  /** Quoting a word keeps everything but the quotes. */
  lemma QuotedWordContent(a: string, w: string, b: string)
    ensures Filter(a + "\"" + w + "\"" + b, NotQuote) == Filter(a + w + b, NotQuote)
  {
    var q := "\"";
    FilterNone(q, NotQuote);
    FilterConcat(a + q + w + q, b, NotQuote);
    FilterConcat(a + q + w, q, NotQuote);
    FilterConcat(a + q, w, NotQuote);
    FilterConcat(a, q, NotQuote);
    FilterConcat(a + w, b, NotQuote);
    FilterConcat(a, w, NotQuote);
  }

  /** The text of a bare-key match with the word put in quotes. */
  function QuotedKey(s: string, j: nat, k: nat, m: nat): (head: string)
    requires j <= k <= m < |s|
    ensures |head| == m + 3
    ensures Filter(head, NotQuote) == Filter(s[..m + 1], NotQuote)
  {
    QuotedWordContent(s[..j], s[j..k], s[k..m + 1]);
    assert s[..j] + s[j..k] + s[k..m + 1] == s[..m + 1];
    s[..j] + "\"" + s[j..k] + "\"" + s[k..m + 1]
  }

  /**
    `re.sub(r'([{,]\s*)([a-zA-Z0-9_]+)(\s*:)', r'\1"\2"\3', s)`: a word right
    after `{` or `,` and before `:` is put in double quotes. Nothing but
    double quotes is ever added, and nothing is removed.
   */
  function QuoteBareKeys(s: string): (r: string)
    ensures Filter(r, NotQuote) == Filter(s, NotQuote)
    ensures '{' !in s && ',' !in s ==> r == s
    ensures |r| >= |s|
    decreases |s|
  {
    if |s| == 0 then ""
    else
      match BareKeyAt(s)
      case Some((j, k, m)) =>
        var rest := QuoteBareKeys(s[m + 1..]);
        QuoteFirst(s, j, k, m, rest);
        QuotedKey(s, j, k, m) + rest
      case None =>
        var rest := QuoteBareKeys(s[1..]);
        KeepFirst(s, rest);
        [s[0]] + rest
  }

  /** A quoted key followed by the rest's result keeps the quote-free content and does not shrink. */
  lemma QuoteFirst(s: string, j: nat, k: nat, m: nat, rest: string)
    requires BareKeyAt(s) == Some((j, k, m))
    requires Filter(rest, NotQuote) == Filter(s[m + 1..], NotQuote) && |rest| >= |s| - m - 1
    ensures Filter(QuotedKey(s, j, k, m) + rest, NotQuote) == Filter(s, NotQuote)
    ensures |QuotedKey(s, j, k, m) + rest| >= |s|
    ensures '{' in s || ',' in s
  {
    FilterSplice(s, m + 1, QuotedKey(s, j, k, m), rest, NotQuote);
    assert s[0] in s;
  }

  /** A character kept as it is, followed by the rest's result. */
  lemma KeepFirst(s: string, rest: string)
    requires |s| > 0
    requires Filter(rest, NotQuote) == Filter(s[1..], NotQuote) && |rest| >= |s| - 1
    requires '{' !in s[1..] && ',' !in s[1..] ==> rest == s[1..]
    ensures Filter([s[0]] + rest, NotQuote) == Filter(s, NotQuote)
    ensures |[s[0]] + rest| >= |s|
    ensures '{' !in s && ',' !in s ==> [s[0]] + rest == s
  {
    assert s[..1] == [s[0]];
    FilterSplice(s, 1, [s[0]], rest, NotQuote);
    if '{' !in s && ',' !in s {
      assert forall c :: c in s[1..] ==> c in s;
      assert s == [s[0]] + s[1..];
    }
  }

  /** `[{,]`, blank space up to `j`, a word from `j` to `k`, blank space up to the colon at `m`. */
  predicate BareKeyShape(s: string, j: nat, k: nat, m: nat) {
    && 0 < j < k <= m < |s| && (s[0] == '{' || s[0] == ',')
    && (forall i :: 1 <= i < j ==> IsSpace(s[i]))
    && (forall i :: j <= i < k ==> IsWordChar(s[i]))
    && (forall i :: k <= i < m ==> IsSpace(s[i])) && s[m] == ':'
  }

  /**
    The pattern matches at the start exactly in this shape: word characters
    are not blank and neither is the colon, so each run can end in one
    place only and backtracking finds no other split.
   */
  lemma BareKeyAtShape(s: string, j: nat, k: nat, m: nat)
    ensures BareKeyAt(s) == Some((j, k, m)) <==> BareKeyShape(s, j, k, m)
  {
    if BareKeyShape(s, j, k, m) {
      assert IsWordChar(s[j]) && !IsSpace(s[j]);
      SkipWhileIs(s, 1, IsSpace, j);
      assert !IsWordChar(s[k]) by {
        if k < m {
          assert IsSpace(s[k]);
        }
      }
      SkipWhileIs(s, j, IsWordChar, k);
      SkipWhileIs(s, k, IsSpace, m);
    }
  }

  /** No bare key starts at index `i` of `s`. */
  predicate NoKeyAt(s: string, i: nat)
    requires i <= |s|
  {
    BareKeyAt(s[i..]).None?
  }

  /** Where no bare key starts, `QuoteBareKeys` copies the text. */
  lemma {:induction false} QuoteCopies(s: string, n: nat)
    requires n <= |s|
    requires forall i :: 0 <= i < n ==> NoKeyAt(s, i)
    ensures QuoteBareKeys(s) == s[..n] + QuoteBareKeys(s[n..])
    decreases n
  {
    if n > 0 {
      assert s[0..] == s;
      assert NoKeyAt(s, 0);
      var t := s[1..];
      forall i | 0 <= i < n - 1 ensures NoKeyAt(t, i) {
        assert NoKeyAt(s, i + 1);
        assert t[i..] == s[i + 1..];
      }
      QuoteCopies(t, n - 1);
      assert t[n - 1..] == s[n..];
      ConsPrefix(s, n, QuoteBareKeys(s[n..]));
    }
  }

  /**
    At a bare key the pattern finds at the start (`BareKeyAtShape` says
    which), the word is wrapped in double quotes, the blank space and colon
    around it stay, and the rewrite resumes after the colon.
   */
  lemma QuoteStep(t: string)
    requires BareKeyAt(t).Some?
    ensures var b := BareKeyAt(t).value;
      QuoteBareKeys(t) == QuotedKey(t, b.0, b.1, b.2) + QuoteBareKeys(t[b.2 + 1..])
  {
  }

  // ------------------------------------------------------ adjacent objects

  /** The pattern `}\s*{` tried at the start of `s`: where the match ends. */
  function ObjectGapAt(s: string): (r: Option<nat>)
    ensures r.Some? ==> 2 <= r.value <= |s| && s[0] == '}' && s[r.value - 1] == '{'
    ensures r.Some? ==> forall k :: 1 <= k < r.value - 1 ==> IsSpace(s[k])
  {
    if |s| > 0 && s[0] == '}' then
      var j := SkipWhile(s, 1, IsSpace);
      if j < |s| && s[j] == '{' then Some(j + 1) else None
    else None
  }

  /** Closing the gap keeps the two braces and nothing else that matters. */
  lemma ObjectGapContent(s: string, e: nat)
    requires ObjectGapAt(s) == Some(e)
    ensures Filter("},{", Significant) == Filter(s[..e], Significant)
  {
    assert s[..e] == ['}'] + s[1..e - 1] + ['{'];
    FilterConcat(['}'] + s[1..e - 1], ['{'], Significant);
    FilterConcat(['}'], s[1..e - 1], Significant);
    FilterNone(s[1..e - 1], Significant);
    assert "},{" == ['}'] + [','] + ['{'];
    FilterConcat(['}'] + [','], ['{'], Significant);
    FilterConcat(['}'], [','], Significant);
  }

  /**
    `re.sub(r'}\s*{', '},{', s)`: objects that follow each other with only
    blank space between are separated by a comma. Only commas and whitespace
    change.
   */
  function SeparateObjects(s: string): (r: string)
    ensures Filter(r, Significant) == Filter(s, Significant)
    ensures |r| > 0 <==> |s| > 0
    ensures |r| > 0 ==> r[0] == s[0]
    decreases |s|
  {
    if |s| == 0 then ""
    else
      match ObjectGapAt(s)
      case Some(e) =>
        var rest := SeparateObjects(s[e..]);
        ObjectGapContent(s, e);
        FilterSplice(s, e, "},{", rest, Significant);
        "},{" + rest
      case None =>
        var rest := SeparateObjects(s[1..]);
        assert s[..1] == [s[0]];
        FilterSplice(s, 1, [s[0]], rest, Significant);
        [s[0]] + rest
  }

  /** `}`, blank space, then `{`, spanning `s[..e]`. */
  predicate ObjectGapShape(s: string, e: nat) {
    && 2 <= e <= |s| && s[0] == '}' && s[e - 1] == '{'
    && forall k :: 1 <= k < e - 1 ==> IsSpace(s[k])
  }

  /** The pattern matches at the start exactly when `}`, blank space and `{` begin the text. */
  lemma ObjectGapAtShape(s: string, e: nat)
    ensures ObjectGapAt(s) == Some(e) <==> ObjectGapShape(s, e)
  {
    if ObjectGapShape(s, e) {
      SkipWhileIs(s, 1, IsSpace, e - 1);
    }
  }

  /** Where no gap between objects starts, `SeparateObjects` copies the text. */
  lemma {:induction false} SeparateCopies(s: string, n: nat)
    requires n <= |s|
    requires forall k :: 0 <= k < n ==> ObjectGapAt(s[k..]).None?
    ensures SeparateObjects(s) == s[..n] + SeparateObjects(s[n..])
    decreases n
  {
    if n > 0 {
      assert s[0..] == s;
      var t := s[1..];
      forall k | 0 <= k < n - 1 ensures ObjectGapAt(t[k..]).None? {
        assert t[k..] == s[k + 1..];
      }
      SeparateCopies(t, n - 1);
      assert t[n - 1..] == s[n..];
      ConsPrefix(s, n, SeparateObjects(s[n..]));
    }
  }

  /**
    The rewrite at the first gap: everything before it is kept, and the
    `}`, the blank space and the `{` become `},{`.
   */
  lemma SeparateObjectsAt(s: string, n: nat, e: nat)
    requires n <= |s| && ObjectGapShape(s[n..], e)
    requires forall k :: 0 <= k < n ==> ObjectGapAt(s[k..]).None?
    ensures SeparateObjects(s) == s[..n] + "},{" + SeparateObjects(s[n + e..])
  {
    var t := s[n..];
    assert t[e..] == s[n + e..];
    SeparateCopies(s, n);
    SeparateAtStart(t, e);
    SpliceHead(s[..n], "},{", SeparateObjects(t[e..]));
  }

  /** One step of `SeparateObjects` at a gap that starts the text. */
  lemma SeparateAtStart(t: string, e: nat)
    requires ObjectGapShape(t, e)
    ensures SeparateObjects(t) == "},{" + SeparateObjects(t[e..])
  {
    ObjectGapAtShape(t, e);
  }

  /** Text without `}` passes through unchanged. */
  lemma {:induction false} SeparateObjectsNoClose(s: string)
    requires '}' !in s
    ensures SeparateObjects(s) == s
    decreases |s|
  {
    if |s| > 0 {
      SeparateObjectsCopies(s);
      assert '}' !in s[1..] by {
        forall k | 0 <= k < |s[1..]| ensures s[1..][k] != '}' {
          assert s[1..][k] == s[k + 1];
        }
      }
      SeparateObjectsNoClose(s[1..]);
      assert s == [s[0]] + s[1..];
    }
  }

  /** A first character other than `}` is copied. */
  lemma SeparateObjectsCopies(s: string)
    requires |s| > 0 && s[0] != '}'
    ensures SeparateObjects(s) == [s[0]] + SeparateObjects(s[1..])
  {
    assert ObjectGapAt(s) == None;
  }

  /** Leading characters other than `}` pass through unchanged. */
  lemma {:induction false} SeparateObjectsBlankPrefix(s: string, n: nat)
    requires n <= |s|
    requires forall k :: 0 <= k < n ==> s[k] != '}'
    ensures SeparateObjects(s) == s[..n] + SeparateObjects(s[n..])
    decreases n
  {
    if n > 0 {
      SeparateObjectsCopies(s);
      var t := s[1..];
      forall k | 0 <= k < n - 1 ensures t[k] != '}' {
        assert t[k] == s[k + 1];
      }
      SeparateObjectsBlankPrefix(t, n - 1);
      assert t[n - 1..] == s[n..];
      ConsPrefix(s, n, SeparateObjects(s[n..]));
    }
  }

  lemma ConsPrefix(s: string, n: nat, tail: string)
    requires 0 < n <= |s|
    ensures [s[0]] + (s[1..][..n - 1] + tail) == s[..n] + tail
  {
    assert s[1..][..n - 1] == s[1..n];
    assert s[..n] == [s[0]] + s[1..n];
  }

  /** One pass leaves no `}` followed by blank space and `{`: running it again changes nothing. */
  lemma {:induction false} SeparateObjectsIdempotent(s: string)
    ensures SeparateObjects(SeparateObjects(s)) == SeparateObjects(s)
    decreases |s|
  {
    if |s| > 0 {
      match ObjectGapAt(s)
      case Some(e) =>
        SeparateObjectsIdempotent(s[e..]);
        GapRewritten(SeparateObjects(s[e..]));
      case None =>
        SeparateObjectsIdempotent(s[1..]);
        CopyRewritten(s);
    }
  }

  /** A rewritten gap followed by a fixed point is a fixed point. */
  lemma GapRewritten(rest: string)
    requires SeparateObjects(rest) == rest
    ensures SeparateObjects("},{" + rest) == "},{" + rest
  {
    var t1 := ['{'] + rest;
    var t2 := [','] + t1;
    var r := ['}'] + t2;
    GapSpelled(rest);
    assert t1[1..] == rest && t2[1..] == t1 && r[1..] == t2;
    SeparateObjectsCopies(t1);
    SeparateObjectsCopies(t2);
    assert SkipWhile(r, 1, IsSpace) == 1;
  }

  lemma GapSpelled(rest: string)
    ensures "},{" + rest == ['}'] + ([','] + (['{'] + rest))
  {
  }

  /** A copied first character followed by a fixed point is a fixed point. */
  lemma CopyRewritten(s: string)
    requires |s| > 0 && ObjectGapAt(s) == None
    requires SeparateObjects(SeparateObjects(s[1..])) == SeparateObjects(s[1..])
    ensures SeparateObjects([s[0]] + SeparateObjects(s[1..])) == [s[0]] + SeparateObjects(s[1..])
  {
    var r := [s[0]] + SeparateObjects(s[1..]);
    assert r[1..] == SeparateObjects(s[1..]);
    if s[0] == '}' {
      NoGapAfterBrace(s, r);
    } else {
      SeparateObjectsCopies(r);
    }
  }

  /** A `}` that did not start a match does not start one after the rest is rewritten. */
  lemma NoGapAfterBrace(s: string, r: string)
    requires |s| > 0 && s[0] == '}' && ObjectGapAt(s) == None
    requires r == [s[0]] + SeparateObjects(s[1..])
    ensures ObjectGapAt(r) == None
  {
    var j := SkipWhile(s, 1, IsSpace);
    var tail := SeparateObjects(s[j..]);
    BlankRunKept(s, j);
    assert r == ['}'] + s[1..j] + tail;
    GapStillAbsent(s, j, tail, r);
  }

  /** The blank run after a `}` is copied as it is. */
  lemma BlankRunKept(s: string, j: nat)
    requires 1 <= j <= |s|
    requires forall k :: 1 <= k < j ==> IsSpace(s[k])
    ensures SeparateObjects(s[1..]) == s[1..j] + SeparateObjects(s[j..])
  {
    var t := s[1..];
    forall k | 0 <= k < j - 1 ensures t[k] != '}' {
      assert t[k] == s[k + 1];
    }
    SeparateObjectsBlankPrefix(t, j - 1);
    assert t[..j - 1] == s[1..j];
    assert t[j - 1..] == s[j..];
  }

  /** The `}`, the same blank run, then the character that ended it: still no `{`. */
  lemma GapStillAbsent(s: string, j: nat, tail: string, r: string)
    requires |s| > 0 && 1 <= j <= |s|
    requires forall k :: 1 <= k < j ==> IsSpace(s[k])
    requires j == |s| || (!IsSpace(s[j]) && s[j] != '{')
    requires (|tail| > 0 <==> j < |s|) && (j < |s| ==> tail[0] == s[j])
    requires r == ['}'] + s[1..j] + tail
    ensures ObjectGapAt(r) == None
  {
    forall k | 1 <= k < j ensures IsSpace(r[k]) {
      assert r[k] == s[k];
    }
    if j < |s| {
      assert r[j] == tail[0];
      SkipWhileIs(r, 1, IsSpace, j);
    } else {
      SkipWhileIs(r, 1, IsSpace, |r|);
    }
  }

  // ------------------------------------------------------------ pipeline

  /** The characters no repair may add or drop: everything but commas, whitespace and double quotes. */
  predicate Content(c: char) {
    Significant(c) && NotQuote(c)
  }

  /** All the repairs in the reconciler's order, applied to the unfenced reply. */
  function Normalise(t: string): (r: string)
    ensures Filter(r, Content) == Filter(StripBlockComments(StripLineComments(t)), Content)
  {
    var a := StripLineComments(t);
    var b := StripBlockComments(a);
    var c := DropTrailingCommas(b, '}');
    var d := DropTrailingCommas(c, ']');
    var e := QuoteBareKeys(d);
    var f := SeparateObjects(e);
    FilterBoth(c, b, Significant, NotQuote, Content);
    FilterBoth(d, c, Significant, NotQuote, Content);
    FilterBoth(e, d, NotQuote, Significant, Content);
    FilterBoth(f, e, Significant, NotQuote, Content);
    f
  }

  /**
    A reply with a bare key and a trailing comma: the comma goes, the key is
    quoted, and nothing else changes.
   */
  lemma NormaliseRepairsObject()
    ensures Normalise("{a:1,}") == "{\"a\":1}"
  {
    ExampleKeepsComments();
    ExampleDropsComma();
    ExampleQuotesKey();
    ExampleHasNoGap();
  }

  lemma ExampleKeepsComments()
    ensures StripBlockComments(StripLineComments("{a:1,}")) == "{a:1,}"
  {
    var s := "{a:1,}";
    assert NoPair(s, '/', '/') && NoPair(s, '/', '*');
  }

  lemma ExampleDropsComma()
    ensures DropTrailingCommas(DropTrailingCommas("{a:1,}", '}'), ']') == "{a:1}"
  {
    var s := "{a:1,}";
    ExampleNoEarlierComma();
    ExampleCommaShape();
    DropTrailingCommasAt(s, '}', 4, 2);
    ExampleCommaPieces();
  }

  lemma ExampleNoEarlierComma()
    ensures forall k :: 0 <= k < 4 ==> TrailingCommaAt("{a:1,}"[k..], '}').None?
  {
    var s := "{a:1,}";
    forall k | 0 <= k < 4 ensures TrailingCommaAt(s[k..], '}').None? {
      assert s[k..][0] == s[k] != ',';
    }
  }

  lemma ExampleCommaShape()
    ensures TrailingCommaShape("{a:1,}"[4..], '}', 2)
  {
    assert "{a:1,}"[4..] == ",}";
  }

  lemma ExampleCommaPieces()
    ensures "{a:1,}"[..4] + "}" + DropTrailingCommas("{a:1,}"[6..], '}') == "{a:1}"
    ensures DropTrailingCommas("{a:1}", ']') == "{a:1}"
  {
    assert "{a:1,}"[6..] == "";
    assert "{a:1,}"[..4] == "{a:1";
    assert ',' !in "{a:1}";
  }

  lemma ExampleQuotesKey()
    ensures QuoteBareKeys("{a:1}") == "{\"a\":1}"
  {
    var d := "{a:1}";
    ExampleKeyFound();
    QuoteStep(d);
    ExampleKeyQuoted();
    ExampleTailKept();
  }

  lemma ExampleKeyFound()
    ensures BareKeyAt("{a:1}") == Some((1, 2, 2))
  {
    var d := "{a:1}";
    assert d[0] == '{' && d[1] == 'a' && d[2] == ':';
    assert BareKeyShape(d, 1, 2, 2);
    BareKeyAtShape(d, 1, 2, 2);
  }

  lemma ExampleKeyQuoted()
    ensures QuotedKey("{a:1}", 1, 2, 2) == "{\"a\":"
  {
    var d := "{a:1}";
    assert d[..1] == "{" && d[1..2] == "a" && d[2..3] == ":";
  }

  lemma ExampleTailKept()
    ensures "{a:1}"[3..] == "1}" && QuoteBareKeys("1}") == "1}"
  {
    assert '{' !in "1}" && ',' !in "1}";
  }

  lemma ExampleHasNoGap()
    ensures SeparateObjects("{\"a\":1}") == "{\"a\":1}"
  {
    var e := "{\"a\":1}";
    ExampleNoCloseBefore();
    SeparateObjectsBlankPrefix(e, 6);
    ExampleCloseKept();
  }

  lemma ExampleNoCloseBefore()
    ensures forall k :: 0 <= k < 6 ==> "{\"a\":1}"[k] != '}'
  {
  }

  lemma ExampleCloseKept()
    ensures "{\"a\":1}"[..6] + SeparateObjects("{\"a\":1}"[6..]) == "{\"a\":1}"
  {
    var e := "{\"a\":1}";
    assert e[6..] == "}";
    assert ObjectGapAt("}") == None;
    assert SeparateObjects("}") == "}";
  }

  /** Two objects side by side become the items of one list body. */
  lemma NormaliseSeparatesObjects()
    ensures Normalise("{} {}") == "{},{}"
  {
    GapExampleUntouched();
    GapExampleNoKeys();
    QuoteCopies("{} {}", 5);
    GapExampleSplit();
    SeparateObjectsAt("{} {}", 1, 3);
    GapExampleJoined();
  }

  lemma GapExampleUntouched()
    ensures DropTrailingCommas(DropTrailingCommas(StripBlockComments(StripLineComments("{} {}")), '}'), ']') == "{} {}"
  {
    var s := "{} {}";
    assert NoPair(s, '/', '/') && NoPair(s, '/', '*') && ',' !in s;
  }

  lemma GapExampleJoined()
    ensures "{} {}"[..1] + "},{" + SeparateObjects("{} {}"[1 + 3..]) == "{},{}"
  {
    assert "{} {}"[..1] == "{" && "{} {}"[1 + 3..] == "}";
    assert ObjectGapAt("}") == None;
    assert SeparateObjects("}") == "}";
  }

  lemma GapExampleNoKeys()
    ensures forall i :: 0 <= i < 5 ==> NoKeyAt("{} {}", i)
    ensures "{} {}"[..5] + QuoteBareKeys("{} {}"[5..]) == "{} {}"
  {
    var s := "{} {}";
    assert SkipWhile(s, 1, IsSpace) == 1 && SkipWhile(s, 1, IsWordChar) == 1;
    assert s[3..] == "{}";
    assert SkipWhile("{}", 1, IsSpace) == 1 && SkipWhile("{}", 1, IsWordChar) == 1;
    forall i | 0 <= i < 5 ensures NoKeyAt(s, i) {
      assert s[i..][0] == s[i];
    }
    assert s[5..] == "" && s[..5] == s;
  }

  lemma GapExampleSplit()
    ensures ObjectGapShape("{} {}"[1..], 3)
    ensures forall k :: 0 <= k < 1 ==> ObjectGapAt("{} {}"[k..]).None?
  {
    var s := "{} {}";
    assert s[1..] == "} {}";
    assert s[0..] == s;
  }
}
