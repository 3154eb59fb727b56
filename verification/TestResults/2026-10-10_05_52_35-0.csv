TestResult.DisplayName,TestResult.Outcome,TestResult.Duration,TestResult.ResourceCount,RandomSeed
ResourceRegex.QuoteInValueMisreads (correctness),Passed,00:00:00.8390886,562772,2
ResourceRegex.MisreadTail (correctness),Passed,00:00:00.6619908,1476254,2
AndroidExport.QuoteInKeyMisreads (correctness),Passed,00:00:00.4117567,297304,2
ResourceRegex.MisreadElement (correctness),Passed,00:00:00.3663349,806166,2
ResourceRegex.MisreadWay (correctness),Passed,00:00:00.2893600,418042,2
ResourceRegex.MisreadElement (well-formedness),Passed,00:00:00.2780938,89772,2
ResourceRegex.MisreadNoLater (correctness),Passed,00:00:00.1780863,94310,2
ResourceRegex.MisreadNoLater (well-formedness),Passed,00:00:00.0830531,66022,2
ResourceRegex.MisreadTail (well-formedness),Passed,00:00:00.0817087,63888,2
ResourceRegex.MisreadWay (well-formedness),Passed,00:00:00.0769823,66170,2
