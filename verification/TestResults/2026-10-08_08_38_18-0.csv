TestResult.DisplayName,TestResult.Outcome,TestResult.Duration,TestResult.ResourceCount,RandomSeed
Persistence.CsvRows (well-formedness),Passed,00:00:01.9683691,5417128,4
