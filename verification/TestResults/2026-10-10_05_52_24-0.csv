TestResult.DisplayName,TestResult.Outcome,TestResult.Duration,TestResult.ResourceCount,RandomSeed
ResourceRegex.QuoteInValueMisreads (correctness),Passed,00:00:00.6914947,553585,1
ResourceRegex.MisreadTail (correctness),Passed,00:00:00.4159368,921278,1
AndroidExport.QuoteInKeyMisreads (correctness),Passed,00:00:00.3780076,313773,1
ResourceRegex.MisreadElement (correctness),Passed,00:00:00.3597758,759760,1
ResourceRegex.MisreadNoLater (correctness),Passed,00:00:00.1874390,96108,1
ResourceRegex.MisreadWay (correctness),Passed,00:00:00.1748807,362616,1
ResourceRegex.MisreadElement (well-formedness),Passed,00:00:00.1539291,89751,1
ResourceRegex.MisreadTail (well-formedness),Passed,00:00:00.0776652,63896,1
ResourceRegex.MisreadWay (well-formedness),Passed,00:00:00.0709786,66186,1
ResourceRegex.MisreadNoLater (well-formedness),Passed,00:00:00.0653208,66038,1
