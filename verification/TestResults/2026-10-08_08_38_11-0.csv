TestResult.DisplayName,TestResult.Outcome,TestResult.Duration,TestResult.ResourceCount,RandomSeed
Persistence.CsvRows (well-formedness),Passed,00:00:00.3397119,607411,2
