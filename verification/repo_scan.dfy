/**
  The repository scan of the backend: finding `strings.xml` files in a
  GitHub repository, either by walking a few glob-like patterns or by a
  breadth-first scan of the whole tree.

  The GitHub client is replaced by an in-memory tree. A directory whose
  listing fails is `readable == false`; a file whose content does not
  decode as base64 UTF-8 has `content == None`; entries that are neither
  files nor directories (symlinks, submodules) are `Other` and never yield
  content. A directory's `children` are what listing it returns.
 */
module RepoScan {
  import opened Wrappers
  import opened Text
  import opened Dicts

  datatype Entry =
    | File(name: string, path: string, content: Option<string>)
    | Dir(name: string, path: string, readable: bool, children: seq<Entry>)
    | Other(name: string, path: string)

  /** A file the scan can record: its content decodes. */
  predicate Decodable(e: Entry) {
    e.File? && e.content.Some?
  }

  // ------------------------------------------------------------------ chains

  /** A reachable entry with the names on the way to it, its own name last. */
  type Chain = (seq<string>, Entry)

  /** The decodable files under `e` (itself included), reached through readable directories. */
  function ChainsOf(e: Entry): (cs: seq<Chain>)
    ensures forall j :: 0 <= j < |cs| ==> |cs[j].0| >= 1 && Decodable(cs[j].1)
    decreases e, 1
  {
    match e
    case File(name, _, content) => if content.Some? then [([name], e)] else []
    case Dir(name, _, readable, _) => if readable then Prefixed(name, ChainsFrom(e, 0)) else []
    case Other(_, _) => []
  }

  /** The decodable files under the children of `dir` from the `i`-th on. */
  function ChainsFrom(dir: Entry, i: nat): (cs: seq<Chain>)
    requires dir.Dir? && i <= |dir.children|
    ensures forall j :: 0 <= j < |cs| ==> |cs[j].0| >= 1 && Decodable(cs[j].1)
    decreases dir, 0, |dir.children| - i
  {
    if i == |dir.children| then []
    else
      assert dir.children[i] in dir.children;
      ChainsOf(dir.children[i]) + ChainsFrom(dir, i + 1)
  }

  // ---------------------------------------------------------------- patterns

  /** A pattern step admits a name: it is `*`, `**` or the name itself. */
  predicate Admits(step: string, name: string) {
    step == "*" || step == "**" || step == name
  }

  /**
    The glob meaning of a pattern, on the names from the search root down to
    a file: `*` matches one name, `**` one or more directory names, any
    other step exactly its name; the last step meets the file itself and
    must be the file's name or `*`.
   */
  predicate Matches(names: seq<string>, pattern: seq<string>)
    decreases |names|
  {
    if |names| == 0 || |pattern| == 0 then false
    else if |names| == 1 then |pattern| == 1 && (pattern[0] == names[0] || pattern[0] == "*")
    else
      Admits(pattern[0], names[0]) &&
      (Matches(names[1..], pattern[1..]) || (pattern[0] == "**" && Matches(names[1..], pattern)))
  }

  /** `p` is the path of a chain in `cs` that matches `pattern`. */
  predicate HitPath(cs: seq<Chain>, pattern: seq<string>, p: string) {
    exists j :: 0 <= j < |cs| && Matches(cs[j].0, pattern) && cs[j].1.path == p
  }

  /** `(p, c)` is the path and content of a chain in `cs` that matches `pattern`. */
  predicate HitPair(cs: seq<Chain>, pattern: seq<string>, pc: (string, string)) {
    exists j :: 0 <= j < |cs| && Decodable(cs[j].1) && Matches(cs[j].0, pattern) && (cs[j].1.path, cs[j].1.content.value) == pc
  }

  // ---------------------------------------------------------- pattern search

  /**
    `search_by_pattern(repo, dir's listing, pattern, depth, branch)`: the
    files matching `pattern[depth..]` below `dir`, later finds overwriting
    earlier ones with the same path.
   */
  function SearchByPattern(dir: Entry, pattern: seq<string>, depth: nat): Dict<string, string>
    requires dir.Dir?
    decreases dir, 1
  {
    if depth >= |pattern| then [] else SearchFrom([], dir, 0, pattern, depth)
  }

  /** The loop of `search_by_pattern` over the listing from the `i`-th entry on. */
  function SearchFrom(acc: Dict<string, string>, dir: Entry, i: nat, pattern: seq<string>, depth: nat): Dict<string, string>
    requires dir.Dir? && i <= |dir.children| && depth < |pattern|
    decreases dir, 0, |dir.children| - i
  {
    if i == |dir.children| then acc
    else
      assert dir.children[i] in dir.children;
      SearchFrom(SearchItem(acc, dir.children[i], pattern, depth), dir, i + 1, pattern, depth)
  }

  /** One entry of the listing. */
  function SearchItem(acc: Dict<string, string>, e: Entry, pattern: seq<string>, depth: nat): Dict<string, string>
    requires depth < |pattern|
    decreases e, 2
  {
    var step := pattern[depth];
    if !Admits(step, e.name) then acc
    else
      match e
      case Dir(_, _, readable, _) =>
        if !readable then acc
        else if step == "**" then
          Update(Update(acc, SearchByPattern(e, pattern, depth + 1)), SearchByPattern(e, pattern, depth))
        else Update(acc, SearchByPattern(e, pattern, depth + 1))
      case File(name, path, content) =>
        if depth == |pattern| - 1 && (name == pattern[|pattern| - 1] || pattern[|pattern| - 1] == "*") && content.Some?
        then Put(acc, path, content.value)
        else acc
      case Other(_, _) => acc
  }
  // ------------------------------------------------- pattern search meaning

  lemma HitConcat(a: seq<Chain>, b: seq<Chain>, pattern: seq<string>)
    ensures forall p :: HitPath(a + b, pattern, p) <==> HitPath(a, pattern, p) || HitPath(b, pattern, p)
    ensures forall pc :: HitPair(a + b, pattern, pc) <==> HitPair(a, pattern, pc) || HitPair(b, pattern, pc)
  {
    forall p | HitPath(a + b, pattern, p) ensures HitPath(a, pattern, p) || HitPath(b, pattern, p) {
      var j :| 0 <= j < |a + b| && Matches((a + b)[j].0, pattern) && (a + b)[j].1.path == p;
      if j >= |a| {
        assert (a + b)[j] == b[j - |a|];
      }
    }
    forall p | HitPath(a, pattern, p) ensures HitPath(a + b, pattern, p) {
      var j :| 0 <= j < |a| && Matches(a[j].0, pattern) && a[j].1.path == p;
      assert (a + b)[j] == a[j];
    }
    forall p | HitPath(b, pattern, p) ensures HitPath(a + b, pattern, p) {
      var j :| 0 <= j < |b| && Matches(b[j].0, pattern) && b[j].1.path == p;
      assert (a + b)[|a| + j] == b[j];
    }
    forall pc | HitPair(a + b, pattern, pc) ensures HitPair(a, pattern, pc) || HitPair(b, pattern, pc) {
      var j :| 0 <= j < |a + b| && Decodable((a + b)[j].1) && Matches((a + b)[j].0, pattern) &&
        ((a + b)[j].1.path, (a + b)[j].1.content.value) == pc;
      if j >= |a| {
        assert (a + b)[j] == b[j - |a|];
      }
    }
    forall pc | HitPair(a, pattern, pc) ensures HitPair(a + b, pattern, pc) {
      var j :| 0 <= j < |a| && Decodable(a[j].1) && Matches(a[j].0, pattern) && (a[j].1.path, a[j].1.content.value) == pc;
      assert (a + b)[j] == a[j];
    }
    forall pc | HitPair(b, pattern, pc) ensures HitPair(a + b, pattern, pc) {
      var j :| 0 <= j < |b| && Decodable(b[j].1) && Matches(b[j].0, pattern) && (b[j].1.path, b[j].1.content.value) == pc;
      assert (a + b)[|a| + j] == b[j];
    }
  }

  /** Matching a chain one directory up consumes one pattern step on that directory. */
  lemma MatchesUnder(name: string, names: seq<string>, pattern: seq<string>)
    requires |names| >= 1
    ensures Matches([name] + names, pattern) <==>
      |pattern| > 0 && Admits(pattern[0], name) &&
      (Matches(names, pattern[1..]) || (pattern[0] == "**" && Matches(names, pattern)))
  {
    assert ([name] + names)[1..] == names;
  }

  lemma HitUnder(name: string, cs: seq<Chain>, pattern: seq<string>)
    requires forall j :: 0 <= j < |cs| ==> |cs[j].0| >= 1
    ensures forall p :: HitPath(Prefixed(name, cs), pattern, p) <==>
      |pattern| > 0 && Admits(pattern[0], name) &&
      (HitPath(cs, pattern[1..], p) || (pattern[0] == "**" && HitPath(cs, pattern, p)))
    ensures forall pc :: HitPair(Prefixed(name, cs), pattern, pc) <==>
      |pattern| > 0 && Admits(pattern[0], name) &&
      (HitPair(cs, pattern[1..], pc) || (pattern[0] == "**" && HitPair(cs, pattern, pc)))
  {
    var u := Prefixed(name, cs);
    forall j | 0 <= j < |cs| ensures Matches(u[j].0, pattern) <==>
      |pattern| > 0 && Admits(pattern[0], name) &&
      (Matches(cs[j].0, pattern[1..]) || (pattern[0] == "**" && Matches(cs[j].0, pattern)))
    {
      MatchesUnder(name, cs[j].0, pattern);
    }
  }

  /** What one listing entry adds: exactly the files under it that match the rest of the pattern. */
  lemma SearchItemMeaning(acc: Dict<string, string>, e: Entry, pattern: seq<string>, depth: nat)
    requires depth < |pattern|
    ensures var r := SearchItem(acc, e, pattern, depth);
      forall p :: HasKey(r, p) <==> HasKey(acc, p) || HitPath(ChainsOf(e), pattern[depth..], p)
    ensures var r := SearchItem(acc, e, pattern, depth);
      forall pc :: pc in r ==> pc in acc || HitPair(ChainsOf(e), pattern[depth..], pc)
    decreases e, 2
  {
    var rest := pattern[depth..];
    assert rest[0] == pattern[depth];
    match e
    case Dir(name, _, readable, _) =>
      if readable {
        var cs := ChainsFrom(e, 0);
        HitUnder(name, cs, rest);
        assert rest[1..] == pattern[depth + 1..];
        if Admits(pattern[depth], name) {
          SearchByPatternMeaning(e, pattern, depth + 1);
          var s1 := SearchByPattern(e, pattern, depth + 1);
          UpdatePairs(acc, s1);
          if pattern[depth] == "**" {
            SearchByPatternMeaning(e, pattern, depth);
            UpdatePairs(Update(acc, s1), SearchByPattern(e, pattern, depth));
          }
        }
      }
    case File(name, path, content) =>
      assert Matches([name], rest) <==> |rest| == 1 && (rest[0] == name || rest[0] == "*");
      assert |rest| == 1 <==> depth == |pattern| - 1;
      if content.Some? {
        var cs := ChainsOf(e);
        assert cs == [([name], e)];
        forall p ensures HitPath(cs, rest, p) <==> Matches([name], rest) && p == path {
          assert cs[0].0 == [name] && cs[0].1.path == path;
        }
        forall pc ensures HitPair(cs, rest, pc) <==> Matches([name], rest) && pc == (path, content.value) {
          assert cs[0].0 == [name] && Decodable(cs[0].1) && (cs[0].1.path, cs[0].1.content.value) == (path, content.value);
        }
        PutPairs(acc, path, content.value);
      }
    case Other(_, _) =>
  }

  lemma SearchFromMeaning(acc: Dict<string, string>, dir: Entry, i: nat, pattern: seq<string>, depth: nat)
    requires dir.Dir? && i <= |dir.children| && depth < |pattern|
    ensures var r := SearchFrom(acc, dir, i, pattern, depth);
      forall p :: HasKey(r, p) <==> HasKey(acc, p) || HitPath(ChainsFrom(dir, i), pattern[depth..], p)
    ensures var r := SearchFrom(acc, dir, i, pattern, depth);
      forall pc :: pc in r ==> pc in acc || HitPair(ChainsFrom(dir, i), pattern[depth..], pc)
    decreases dir, 0, |dir.children| - i
  {
    if i < |dir.children| {
      var e := dir.children[i];
      assert e in dir.children;
      var acc' := SearchItem(acc, e, pattern, depth);
      SearchItemMeaning(acc, e, pattern, depth);
      SearchFromMeaning(acc', dir, i + 1, pattern, depth);
      HitConcat(ChainsOf(e), ChainsFrom(dir, i + 1), pattern[depth..]);
    }
  }

  /**
    `search_by_pattern` finds exactly the decodable files reachable through
    readable directories whose names match the rest of the pattern, and
    records each under its path with its content.
   */
  lemma SearchByPatternMeaning(dir: Entry, pattern: seq<string>, depth: nat)
    requires dir.Dir? && depth <= |pattern|
    ensures var r := SearchByPattern(dir, pattern, depth);
      forall p :: HasKey(r, p) <==> HitPath(ChainsFrom(dir, 0), pattern[depth..], p)
    ensures var r := SearchByPattern(dir, pattern, depth);
      forall pc :: pc in r ==> HitPair(ChainsFrom(dir, 0), pattern[depth..], pc)
    decreases dir, 1
  {
    if depth < |pattern| {
      SearchFromMeaning([], dir, 0, pattern, depth);
    }
  }
  // --------------------------------------------------------------- full scan

  /** The number of entries in a tree, itself included: what the breadth-first scan can still visit. */
  function Size(e: Entry): (n: nat)
    ensures n >= 1
    decreases e, 1
  {
    if e.Dir? then 1 + SizeFrom(e, 0) else 1
  }

  function SizeFrom(dir: Entry, i: nat): nat
    requires dir.Dir? && i <= |dir.children|
    decreases dir, 0, |dir.children| - i
  {
    if i == |dir.children| then 0
    else
      assert dir.children[i] in dir.children;
      Size(dir.children[i]) + SizeFrom(dir, i + 1)
  }

  /** The entries still queued, with everything below them. */
  function SizeQ(q: seq<Entry>): nat {
    if |q| == 0 then 0 else Size(q[0]) + SizeQ(q[1..])
  }

  /** The decodable files under the queued entries, in queue order. */
  function ChainsQ(q: seq<Entry>): (cs: seq<Chain>)
    ensures forall j :: 0 <= j < |cs| ==> |cs[j].0| >= 1 && Decodable(cs[j].1)
  {
    if |q| == 0 then [] else ChainsOf(q[0]) + ChainsQ(q[1..])
  }

  lemma {:induction false} QueueConcat(a: seq<Entry>, b: seq<Entry>)
    ensures SizeQ(a + b) == SizeQ(a) + SizeQ(b)
    ensures ChainsQ(a + b) == ChainsQ(a) + ChainsQ(b)
    decreases |a|
  {
    if |a| == 0 {
      assert a + b == b;
    } else {
      assert (a + b)[1..] == a[1..] + b;
      QueueConcat(a[1..], b);
    }
  }

  /** Listing a directory queues exactly what lies below it. */
  lemma {:induction false} QueueChildren(dir: Entry, i: nat)
    requires dir.Dir? && i <= |dir.children|
    ensures SizeFrom(dir, i) == SizeQ(dir.children[i..])
    ensures ChainsFrom(dir, i) == ChainsQ(dir.children[i..])
    decreases |dir.children| - i
  {
    if i < |dir.children| {
      QueueChildren(dir, i + 1);
      assert dir.children[i..][1..] == dir.children[i + 1..];
    }
  }

  /** `p` is the path of a decodable file called `filename` among `cs`. */
  predicate Named(cs: seq<Chain>, filename: string, p: string) {
    exists j :: 0 <= j < |cs| && cs[j].1.name == filename && cs[j].1.path == p
  }

  predicate NamedPair(cs: seq<Chain>, filename: string, pc: (string, string)) {
    exists j :: 0 <= j < |cs| && Decodable(cs[j].1) && cs[j].1.name == filename &&
      (cs[j].1.path, cs[j].1.content.value) == pc
  }

  lemma NamedConcat(a: seq<Chain>, b: seq<Chain>, filename: string)
    ensures forall p :: Named(a + b, filename, p) <==> Named(a, filename, p) || Named(b, filename, p)
    ensures forall pc :: NamedPair(a + b, filename, pc) <==> NamedPair(a, filename, pc) || NamedPair(b, filename, pc)
  {
    forall p | Named(a + b, filename, p) ensures Named(a, filename, p) || Named(b, filename, p) {
      var j :| 0 <= j < |a + b| && (a + b)[j].1.name == filename && (a + b)[j].1.path == p;
      if j >= |a| {
        assert (a + b)[j] == b[j - |a|];
      }
    }
    forall p | Named(a, filename, p) ensures Named(a + b, filename, p) {
      var j :| 0 <= j < |a| && a[j].1.name == filename && a[j].1.path == p;
      assert (a + b)[j] == a[j];
    }
    forall p | Named(b, filename, p) ensures Named(a + b, filename, p) {
      var j :| 0 <= j < |b| && b[j].1.name == filename && b[j].1.path == p;
      assert (a + b)[|a| + j] == b[j];
    }
    forall pc | NamedPair(a + b, filename, pc) ensures NamedPair(a, filename, pc) || NamedPair(b, filename, pc) {
      var j :| 0 <= j < |a + b| && Decodable((a + b)[j].1) && (a + b)[j].1.name == filename &&
        ((a + b)[j].1.path, (a + b)[j].1.content.value) == pc;
      if j >= |a| {
        assert (a + b)[j] == b[j - |a|];
      }
    }
    forall pc | NamedPair(a, filename, pc) ensures NamedPair(a + b, filename, pc) {
      var j :| 0 <= j < |a| && Decodable(a[j].1) && a[j].1.name == filename && (a[j].1.path, a[j].1.content.value) == pc;
      assert (a + b)[j] == a[j];
    }
    forall pc | NamedPair(b, filename, pc) ensures NamedPair(a + b, filename, pc) {
      var j :| 0 <= j < |b| && Decodable(b[j].1) && b[j].1.name == filename && (b[j].1.path, b[j].1.content.value) == pc;
      assert (a + b)[|a| + j] == b[j];
    }
  }

  /** The names on the way do not matter to a search by file name. */
  lemma NamedUnder(name: string, cs: seq<Chain>, filename: string)
    ensures forall p :: Named(Prefixed(name, cs), filename, p) <==> Named(cs, filename, p)
    ensures forall pc :: NamedPair(Prefixed(name, cs), filename, pc) <==> NamedPair(cs, filename, pc)
  {
    var u := Prefixed(name, cs);
    assert forall j :: 0 <= j < |cs| ==> u[j].1 == cs[j].1;
  }

  /** What the front entry of the queue contributes when it is not a readable directory. */
  lemma FrontNotDir(e: Entry, filename: string)
    requires !(e.Dir? && e.readable)
    ensures forall p :: Named(ChainsOf(e), filename, p) <==> e.name == filename && Decodable(e) && p == e.path
    ensures forall pc :: NamedPair(ChainsOf(e), filename, pc) ==> Decodable(e) && e.name == filename && pc == (e.path, e.content.value)
  {
    if Decodable(e) {
      var cs := ChainsOf(e);
      assert cs == [([e.name], e)];
      forall p ensures Named(cs, filename, p) <==> e.name == filename && p == e.path {
        assert cs[0].1 == e;
      }
    }
  }

  /** The queue after one visit: a listable directory at the front is replaced by its children at the back. */
  function NextQueue(queue: seq<Entry>): seq<Entry>
    requires |queue| > 0
  {
    var e := queue[0];
    if e.Dir? && e.readable then queue[1..] + e.children else queue[1..]
  }

  /** The files found after visiting `e`: a decodable file called `filename` is recorded under its path. */
  function NextFound(found: Dict<string, string>, e: Entry, filename: string): Dict<string, string> {
    if !(e.Dir? && e.readable) && e.name == filename && Decodable(e) then Put(found, e.path, e.content.value)
    else found
  }

  /** The loop invariant of the walk: what is found plus what is queued is what the whole tree holds. */
  ghost predicate Walked(found: Dict<string, string>, queue: seq<Entry>, all: seq<Chain>, filename: string) {
    && (forall p :: HasKey(found, p) || Named(ChainsQ(queue), filename, p) <==> Named(all, filename, p))
    && (forall pc :: pc in found ==> NamedPair(all, filename, pc))
    && (forall pc :: NamedPair(ChainsQ(queue), filename, pc) ==> NamedPair(all, filename, pc))
  }

  /** Listing a directory at the front of the queue changes neither the files still to be found nor their contents. */
  lemma WalkDir(queue: seq<Entry>, filename: string)
    requires |queue| > 0 && queue[0].Dir? && queue[0].readable
    ensures forall p :: Named(ChainsQ(NextQueue(queue)), filename, p) <==> Named(ChainsQ(queue), filename, p)
    ensures forall pc :: NamedPair(ChainsQ(NextQueue(queue)), filename, pc) <==> NamedPair(ChainsQ(queue), filename, pc)
    ensures SizeQ(NextQueue(queue)) < SizeQ(queue)
  {
    var e := queue[0];
    var rest := queue[1..];
    assert ChainsQ(queue) == ChainsOf(e) + ChainsQ(rest);
    assert ChainsOf(e) == Prefixed(e.name, ChainsFrom(e, 0));
    QueueChildren(e, 0);
    assert e.children[0..] == e.children;
    QueueConcat(rest, e.children);
    NamedConcat(ChainsOf(e), ChainsQ(rest), filename);
    NamedUnder(e.name, ChainsFrom(e, 0), filename);
    NamedConcat(ChainsQ(rest), ChainsQ(e.children), filename);
  }

  /** Visiting any other entry at the front records it when it is a decodable file called `filename`. */
  lemma WalkFile(found: Dict<string, string>, queue: seq<Entry>, all: seq<Chain>, filename: string)
    requires |queue| > 0 && !(queue[0].Dir? && queue[0].readable) && Walked(found, queue, all, filename)
    ensures Walked(NextFound(found, queue[0], filename), NextQueue(queue), all, filename)
    ensures SizeQ(NextQueue(queue)) < SizeQ(queue)
  {
    var e := queue[0];
    var rest := queue[1..];
    var found' := NextFound(found, e, filename);
    assert ChainsQ(queue) == ChainsOf(e) + ChainsQ(rest);
    assert NextQueue(queue) == rest;
    NamedConcat(ChainsOf(e), ChainsQ(rest), filename);
    FrontNotDir(e, filename);
    if e.name == filename && Decodable(e) {
      PutPairs(found, e.path, e.content.value);
      assert Named(ChainsOf(e), filename, e.path);
      assert NamedPair(ChainsOf(e), filename, (e.path, e.content.value)) by {
        assert ChainsOf(e)[0].1 == e;
      }
    } else {
      assert found' == found;
      assert forall p :: !Named(ChainsOf(e), filename, p);
    }
  }

  /**
    `search_files_in_repo(repo, filename, branch)`: a breadth-first walk of
    the tree that records every decodable file called `filename` under its
    path, skipping directories it cannot list. Listing the root fails only
    when the root is unreadable, and then the call raises: `None`.
   */
  method SearchFilesInRepo(root: Entry, filename: string) returns (r: Option<Dict<string, string>>)
    requires root.Dir?
    ensures r.Some? <==> root.readable
    ensures r.Some? ==> forall p :: HasKey(r.value, p) <==> Named(ChainsFrom(root, 0), filename, p)
    ensures r.Some? ==> forall pc :: pc in r.value ==> NamedPair(ChainsFrom(root, 0), filename, pc)
  {
    if !root.readable {
      return None;
    }
    var all := ChainsFrom(root, 0);
    var queue := root.children;
    var found: Dict<string, string> := [];
    QueueChildren(root, 0);
    assert root.children[0..] == root.children;
    while |queue| > 0
      invariant Walked(found, queue, all, filename)
      decreases SizeQ(queue)
    {
      if queue[0].Dir? && queue[0].readable {
        WalkDir(queue, filename);
      } else {
        WalkFile(found, queue, all, filename);
      }
      found := NextFound(found, queue[0], filename);
      queue := NextQueue(queue);
    }
    return Some(found);
  }
  // ---------------------------------------------------------- repository URL

  /** The repository a scan reads: owner, name and branch, `None` standing for the default branch. */
  datatype RepoRef = RepoRef(owner: string, name: string, branch: Option<string>)

  predicate IsSlash(c: char) {
    c == '/'
  }

  /** Python's truthiness of the optional `branch` argument. */
  predicate BranchGiven(branch: Option<string>) {
    branch.Some? && branch.value != ""
  }

  /** An empty branch name is falsy and leaves the default branch. */
  function AsBranch(b: string): (r: Option<string>)
    ensures r.None? <==> b == ""
    ensures r.Some? ==> r.value == b
  {
    if b == "" then None else Some(b)
  }

  /** Owner and name from a URL with no branch part: the last two `/`-separated fields. */
  function OwnerAndName(u: string, branch: string): (r: Option<RepoRef>)
    ensures r.Some? <==> '/' in Strip(u, IsSlash)
    ensures r.Some? ==> '/' !in r.value.owner && '/' !in r.value.name && r.value.branch == AsBranch(branch)
  {
    var parts := Split(Strip(u, IsSlash), '/');
    SplitOne(Strip(u, IsSlash), '/');
    if |parts| < 2 then None
    else
      assert parts[|parts| - 2] in parts && parts[|parts| - 1] in parts;
      Some(RepoRef(parts[|parts| - 2], parts[|parts| - 1], AsBranch(branch)))
  }

  /** `OwnerAndName` reads the last two fields. */
  lemma OwnerAndNameFields(u: string, branch: string)
    requires |Split(Strip(u, IsSlash), '/')| >= 2
    ensures var parts := Split(Strip(u, IsSlash), '/');
      OwnerAndName(u, branch) == Some(RepoRef(parts[|parts| - 2], parts[|parts| - 1], AsBranch(branch)))
  {
  }

  /** The owner and name are the last two fields of the stripped URL. */
  lemma OwnerAndNameAreLastFields(u: string, branch: string) returns (pre: string)
    requires OwnerAndName(u, branch).Some?
    ensures var r := OwnerAndName(u, branch).value;
      Strip(u, IsSlash) == pre + (r.owner + "/" + r.name)
    ensures pre == [] || pre[|pre| - 1] == '/'
  {
    pre := SplitLastTwo(Strip(u, IsSlash), '/');
  }

  /**
    The URL handling at the top of `scan_github_repository`, as written: a
    `/tree/<branch>` suffix is cut off and read as the branch only when no
    branch was passed in. A failed lookup of `url_parts[-2]` raises: `None`.
   */
  function ParseRepoUrl(url: string, branch: Option<string>): (r: Option<RepoRef>)
    ensures r.Some? ==> '/' !in r.value.owner && '/' !in r.value.name
    ensures r.Some? && BranchGiven(branch) ==> r.value.branch == branch
    ensures !Contains(url, "/tree/") ==> (r.Some? <==> '/' in Strip(url, IsSlash))
  {
    if !BranchGiven(branch) && Contains(url, "/tree/") then
      OwnerAndName(Before(url, "/tree/"), Split(After(url, "/tree/"), '/')[0])
    else
      OwnerAndName(url, if BranchGiven(branch) then branch.value else "")
  }

  /**
    With no branch passed, a URL `<base>/tree/<b>…` is read as the
    repository at `base` on branch `b`: the URL is cut at its first
    `/tree/`, and the branch is the first field after it.
   */
  lemma ParseTreeUrl(base: string, b: string, tail: string, branch: Option<string>)
    requires !BranchGiven(branch)
    requires !Contains(base + "/", "/tree/")
    requires '/' !in b && (tail == "" || tail[0] == '/')
    ensures ParseRepoUrl(base + "/tree/" + b + tail, branch) == OwnerAndName(base, b)
  {
    var url := base + "/tree/" + b + tail;
    FirstTree(base, b + tail);
    assert url == base + "/tree/" + (b + tail);
    assert Before(url, "/tree/") == base;
    assert After(url, "/tree/") == b + tail;
    FirstField(b, tail);
  }

  /** A field followed by nothing or by a `/` is the first field. */
  lemma FirstField(b: string, tail: string)
    requires '/' !in b && (tail == "" || tail[0] == '/')
    ensures Split(b + tail, '/')[0] == b
  {
    if tail == "" {
      SplitNoSeparator(b, "", '/', false);
      assert b + tail == b;
    } else {
      var r := tail[1..];
      assert tail == ['/'] + r;
      ConcatAssoc(b, ['/'], r);
      SplitNoSeparator(b, r, '/', true);
      var parts := Split(b + ['/'] + r, '/');
      assert parts == [b] + Split(r, '/');
      assert parts[0] == b;
    }
  }

  /** The first `/tree/` of `base + "/tree/" + rest` is the one after `base`. */
  lemma FirstTree(base: string, rest: string)
    requires !Contains(base + "/", "/tree/")
    ensures Find(base + "/tree/" + rest, "/tree/", 0) == Some(|base|)
  {
    var url := base + "/tree/" + rest;
    var t := "/tree/";
    var head := base + "/";
    assert StartsAt(url, |base|, t) by {
      assert url[|base|..|base| + 6] == t;
    }
    forall k | 0 <= k < |base| ensures !StartsAt(url, k, t) {
      if k + 6 <= |head| {
        assert !StartsAt(head, k, t);
        assert url[k..k + 6] == head[k..k + 6];
      } else {
        var d := |base| - k;
        assert 1 <= d <= 4 && url[k + d] == '/' && t[d] != '/';
      }
    }
  }

  /**
    With a branch passed in, a URL that names a branch too is not cut: its
    last two fields, `tree` and the URL's branch, are read as the owner and
    the repository, whatever the URL says before them.
   */
  lemma ExplicitBranchMisparses(base: string, b: string, x: string)
    requires |base| > 0 && base[0] != '/'
    requires b != "" && '/' !in b && x != ""
    ensures ParseRepoUrl(base + "/tree/" + b, Some(x)) == Some(RepoRef("tree", b, Some(x)))
  {
    var url := base + "/tree/" + b;
    TreeUrlFields(base, b);
    OwnerAndNameFields(url, x);
  }

  lemma TreeSeparator()
    ensures "/tree/" == "/" + ("tree" + "/")
  {
  }

  /** The fields of a URL ending in `/tree/<b>`. */
  lemma TreeUrlFields(base: string, b: string)
    requires |base| > 0 && base[0] != '/'
    requires b != "" && '/' !in b
    ensures Split(Strip(base + "/tree/" + b, IsSlash), '/') == Split(base, '/') + ["tree", b]
  {
    var url := base + "/tree/" + b;
    assert url[0] == base[0] && url[|url| - 1] == b[|b| - 1];
    assert Strip(url, IsSlash) == url;
    TreeUrlSplit(base, b);
  }

  lemma TreeUrlSplit(base: string, b: string)
    requires '/' !in b
    ensures Split(base + "/tree/" + b, '/') == Split(base, '/') + ["tree", b]
  {
    var tail := "tree" + "/" + b;
    TreeSeparator();
    ConcatAssoc(base, "/", "tree" + "/");
    ConcatAssoc(base + "/", "tree" + "/", b);
    ConcatAssoc("tree", "/", b);
    assert base + "/tree/" + b == base + "/" + tail;
    SplitAppend(base, tail, '/');
    SplitNoSeparator("tree", b, '/', true);
    SplitNoSeparator(b, "", '/', false);
  }

  /**
    The corrected URL handling: a `/tree/<branch>` suffix is always cut off,
    and a branch passed in takes precedence over the one in the URL.
   */
  function ParseRepoUrlFixed(url: string, branch: Option<string>): (r: Option<RepoRef>)
    ensures r.Some? && BranchGiven(branch) ==> r.value.branch == branch
    ensures r.Some? && !BranchGiven(branch) && !Contains(url, "/tree/") ==> r.value.branch.None?
  {
    var base := if Contains(url, "/tree/") then Before(url, "/tree/") else url;
    var fromUrl := if Contains(url, "/tree/") then Split(After(url, "/tree/"), '/')[0] else "";
    OwnerAndName(base, if BranchGiven(branch) then branch.value else fromUrl)
  }

  /** Which repository the corrected parse reads does not depend on the branch argument. */
  lemma FixedRepoIgnoresBranch(url: string, b1: Option<string>, b2: Option<string>)
    ensures ParseRepoUrlFixed(url, b1).Some? <==> ParseRepoUrlFixed(url, b2).Some?
    ensures ParseRepoUrlFixed(url, b1).Some? ==>
      ParseRepoUrlFixed(url, b1).value.owner == ParseRepoUrlFixed(url, b2).value.owner &&
      ParseRepoUrlFixed(url, b1).value.name == ParseRepoUrlFixed(url, b2).value.name
  {
  }

  /** Without a branch argument the corrected parse is the parse as written. */
  lemma FixedAgreesWithoutBranch(url: string, branch: Option<string>)
    requires !BranchGiven(branch)
    ensures ParseRepoUrlFixed(url, branch) == ParseRepoUrl(url, branch)
  {
  }

  /**
    The corrected parse reads the repository the as-written parse reads when
    no branch is passed, and keeps a branch that is passed.
   */
  lemma FixedReadsUrlRepo(url: string, branch: Option<string>)
    ensures ParseRepoUrlFixed(url, branch).Some? <==> ParseRepoUrl(url, None).Some?
    ensures ParseRepoUrlFixed(url, branch).Some? ==>
      ParseRepoUrlFixed(url, branch).value.owner == ParseRepoUrl(url, None).value.owner &&
      ParseRepoUrlFixed(url, branch).value.name == ParseRepoUrl(url, None).value.name &&
      ParseRepoUrlFixed(url, branch).value.branch ==
        (if BranchGiven(branch) then branch else ParseRepoUrl(url, None).value.branch)
  {
    FixedRepoIgnoresBranch(url, branch, None);
    FixedAgreesWithoutBranch(url, None);
  }
  // -------------------------------------------------------------------- scan

  /** Where `strings.xml` files usually live in a Compose Multiplatform project. */
  const CommonPatterns: seq<string> := [
    "*/src/commonMain/composeResources/values/strings.xml",
    "*/*/src/commonMain/composeResources/values/strings.xml",
    "feature/*/src/commonMain/composeResources/values/strings.xml",
    "feature/*/src/*/composeResources/values/strings.xml",
    "feature/*/src/*/resources/values/strings.xml"
  ]

  /** The file the full scan looks for. */
  const StringsFile: string := "strings.xml"

  /**
    The pattern loop of `scan_github_repository` over the first `k` common
    patterns: each pattern lists the root again, and a root that cannot be
    listed makes the pattern raise, which is skipped.
   */
  function PatternSearch(root: Entry, k: nat): Dict<string, string>
    requires root.Dir? && k <= |CommonPatterns|
  {
    if k == 0 then []
    else
      var found := PatternSearch(root, k - 1);
      if root.readable then Update(found, SearchByPattern(root, Split(CommonPatterns[k - 1], '/'), 0))
      else found
  }

  /** `p` is found by one of the first `k` common patterns. */
  predicate PatternHit(root: Entry, k: nat, p: string)
    requires root.Dir? && k <= |CommonPatterns|
  {
    root.readable && exists j :: 0 <= j < k && HitPath(ChainsFrom(root, 0), Split(CommonPatterns[j], '/'), p)
  }

  predicate PatternPair(root: Entry, k: nat, pc: (string, string))
    requires root.Dir? && k <= |CommonPatterns|
  {
    root.readable && exists j :: 0 <= j < k && HitPair(ChainsFrom(root, 0), Split(CommonPatterns[j], '/'), pc)
  }

  /** The pattern loop finds exactly the files some pattern matches, with their contents. */
  lemma {:induction false} PatternSearchMeaning(root: Entry, k: nat)
    requires root.Dir? && k <= |CommonPatterns|
    ensures forall p :: HasKey(PatternSearch(root, k), p) <==> PatternHit(root, k, p)
    ensures forall pc :: pc in PatternSearch(root, k) ==> PatternPair(root, k, pc)
  {
    if k > 0 {
      PatternSearchMeaning(root, k - 1);
      if root.readable {
        var pattern := Split(CommonPatterns[k - 1], '/');
        var found := PatternSearch(root, k - 1);
        var r := SearchByPattern(root, pattern, 0);
        SearchByPatternMeaning(root, pattern, 0);
        assert pattern[0..] == pattern;
        UpdatePairs(found, r);
        forall p ensures HasKey(Update(found, r), p) <==> PatternHit(root, k, p) {
          if HitPath(ChainsFrom(root, 0), pattern, p) {
            assert PatternHit(root, k, p);
          }
          if PatternHit(root, k, p) {
            var j :| 0 <= j < k && HitPath(ChainsFrom(root, 0), Split(CommonPatterns[j], '/'), p);
            if j < k - 1 {
              assert PatternHit(root, k - 1, p);
            }
          }
        }
        forall pc | pc in Update(found, r) ensures PatternPair(root, k, pc) {
          if pc in r {
            assert HitPair(ChainsFrom(root, 0), pattern, pc);
          } else {
            var j :| 0 <= j < k - 1 && HitPair(ChainsFrom(root, 0), Split(CommonPatterns[j], '/'), pc);
          }
        }
      } else {
        forall p ensures !PatternHit(root, k, p) { }
      }
    }
  }

  /**
    What a scan of the tree under `root` delivers: when pattern search is on
    and some pattern matches, exactly the matched files; otherwise the full
    scan for `strings.xml`, which raises (`None`) when the root cannot be
    listed.
   */
  ghost predicate ScanOutcome(root: Entry, patternSearch: bool, r: Option<Dict<string, string>>)
    requires root.Dir?
  {
    var k := |CommonPatterns|;
    if patternSearch && exists p :: PatternHit(root, k, p) then
      r.Some? &&
      (forall p :: HasKey(r.value, p) <==> PatternHit(root, k, p)) &&
      (forall pc :: pc in r.value ==> PatternPair(root, k, pc))
    else
      (r.Some? <==> root.readable) &&
      (r.Some? ==> forall p :: HasKey(r.value, p) <==> Named(ChainsFrom(root, 0), StringsFile, p)) &&
      (r.Some? ==> forall pc :: pc in r.value ==> NamedPair(ChainsFrom(root, 0), StringsFile, pc))
  }

  /** The body of `scan_github_repository` once the branch's tree is at hand. */
  method Scan(root: Entry, patternSearch: bool) returns (r: Option<Dict<string, string>>)
    requires root.Dir?
    ensures ScanOutcome(root, patternSearch, r)
  {
    if patternSearch {
      var found := PatternSearch(root, |CommonPatterns|);
      PatternSearchMeaning(root, |CommonPatterns|);
      if |found| > 0 {
        assert HasKey(found, found[0].0);
        return Some(found);
      }
      assert forall p :: !PatternHit(root, |CommonPatterns|, p) by {
        forall p ensures !HasKey(found, p) { }
      }
    }
    r := SearchFilesInRepo(root, StringsFile);
  }

  /**
    `scan_github_repository(url, token, pattern_search, branch)` as written:
    the URL parse that keeps a `/tree/` part whenever a branch is passed,
    then the scan of that branch's tree. No parse, or no tree,
    gives no result; see `ScanRef` for `tree`.
   */
  method ScanRepositoryAsWritten(url: string, branch: Option<string>, patternSearch: bool,
                                 tree: RepoRef -> Option<(bool, seq<Entry>)>)
    returns (r: Option<Dict<string, string>>)
    ensures ParseRepoUrl(url, branch).None? ==> r.None?
    ensures ParseRepoUrl(url, branch).Some? && tree(ParseRepoUrl(url, branch).value).None? ==> r.None?
    ensures ParseRepoUrl(url, branch).Some? && tree(ParseRepoUrl(url, branch).value).Some? ==>
      ScanOutcome(RootOf(tree(ParseRepoUrl(url, branch).value).value), patternSearch, r)
  {
    r := ScanRef(ParseRepoUrl(url, branch), patternSearch, tree);
  }

  /** `scan_github_repository` with the corrected URL parse. */
  method ScanRepository(url: string, branch: Option<string>, patternSearch: bool,
                        tree: RepoRef -> Option<(bool, seq<Entry>)>)
    returns (r: Option<Dict<string, string>>)
    ensures ParseRepoUrlFixed(url, branch).None? ==> r.None?
    ensures ParseRepoUrlFixed(url, branch).Some? && tree(ParseRepoUrlFixed(url, branch).value).None? ==> r.None?
    ensures ParseRepoUrlFixed(url, branch).Some? && tree(ParseRepoUrlFixed(url, branch).value).Some? ==>
      ScanOutcome(RootOf(tree(ParseRepoUrlFixed(url, branch).value).value), patternSearch, r)
  {
    r := ScanRef(ParseRepoUrlFixed(url, branch), patternSearch, tree);
  }

  /**
    The scan once the URL has been read. `tree(ref)` is what GitHub holds
    for the repository and branch: `None` when the repository cannot be
    opened, otherwise whether its root can be listed and what the listing
    holds.
   */
  method ScanRef(ref: Option<RepoRef>, patternSearch: bool, tree: RepoRef -> Option<(bool, seq<Entry>)>)
    returns (r: Option<Dict<string, string>>)
    ensures ref.None? ==> r.None?
    ensures ref.Some? && tree(ref.value).None? ==> r.None?
    ensures ref.Some? && tree(ref.value).Some? ==> ScanOutcome(RootOf(tree(ref.value).value), patternSearch, r)
  {
    if ref.None? {
      return None;
    }
    var t := tree(ref.value);
    if t.None? {
      return None;
    }
    r := Scan(RootOf(t.value), patternSearch);
  }

  /** The root directory of a branch's tree. */
  function RootOf(t: (bool, seq<Entry>)): (root: Entry)
    ensures root.Dir? && root.readable == t.0 && root.children == t.1
  {
    Dir("", "", t.0, t.1)
  }
}
