TestResult.DisplayName,TestResult.Outcome,TestResult.Duration,TestResult.ResourceCount,RandomSeed
ResourceRegex.QuoteInValueMisreads (correctness),Passed,00:00:01.0051206,557592,4
ResourceRegex.MisreadTail (correctness),Passed,00:00:00.6117754,1159604,4
AndroidExport.QuoteInKeyMisreads (correctness),Passed,00:00:00.4043474,297372,4
ResourceRegex.MisreadWay (correctness),Passed,00:00:00.4006088,519626,4
ResourceRegex.MisreadElement (correctness),Passed,00:00:00.3571176,744873,4
ResourceRegex.MisreadElement (well-formedness),Passed,00:00:00.3497158,89723,4
ResourceRegex.MisreadNoLater (correctness),Passed,00:00:00.2144512,94369,4
ResourceRegex.MisreadWay (well-formedness),Passed,00:00:00.2097642,66124,4
ResourceRegex.MisreadTail (well-formedness),Passed,00:00:00.1305208,63889,4
ResourceRegex.MisreadNoLater (well-formedness),Passed,00:00:00.0906864,65976,4
