TestResult.DisplayName,TestResult.Outcome,TestResult.Duration,TestResult.ResourceCount,RandomSeed
ResourceRegex.MisreadTail (correctness),Passed,00:00:00.9861331,1653208,3
ResourceRegex.QuoteInValueMisreads (correctness),Passed,00:00:00.9352642,558039,3
ResourceRegex.MisreadElement (correctness),Passed,00:00:00.5518389,800760,3
AndroidExport.QuoteInKeyMisreads (correctness),Passed,00:00:00.4339747,376457,3
ResourceRegex.MisreadNoLater (correctness),Passed,00:00:00.2300031,94249,3
ResourceRegex.MisreadWay (correctness),Passed,00:00:00.2246570,358072,3
ResourceRegex.MisreadElement (well-formedness),Passed,00:00:00.2226034,89761,3
ResourceRegex.MisreadTail (well-formedness),Passed,00:00:00.1134397,63938,3
ResourceRegex.MisreadWay (well-formedness),Passed,00:00:00.0912378,66172,3
ResourceRegex.MisreadNoLater (well-formedness),Passed,00:00:00.0883837,66024,3
