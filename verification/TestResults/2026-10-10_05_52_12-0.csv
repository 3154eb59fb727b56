TestResult.DisplayName,TestResult.Outcome,TestResult.Duration,TestResult.ResourceCount,RandomSeed
ResourceRegex.QuoteInValueMisreads (correctness),Passed,00:00:00.7230439,503379,0
ResourceRegex.MisreadElement (correctness),Passed,00:00:00.4963423,929420,0
ResourceRegex.MisreadTail (correctness),Passed,00:00:00.4726420,1134903,0
AndroidExport.QuoteInKeyMisreads (correctness),Passed,00:00:00.3374309,493039,0
ResourceRegex.MisreadElement (well-formedness),Passed,00:00:00.2516187,89744,0
ResourceRegex.MisreadWay (correctness),Passed,00:00:00.2160320,339949,0
ResourceRegex.MisreadNoLater (correctness),Passed,00:00:00.1591708,96525,0
ResourceRegex.MisreadTail (well-formedness),Passed,00:00:00.0639097,63893,0
ResourceRegex.MisreadWay (well-formedness),Passed,00:00:00.0631587,66153,0
ResourceRegex.MisreadNoLater (well-formedness),Passed,00:00:00.0532386,66005,0
