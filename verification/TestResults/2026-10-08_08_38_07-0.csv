TestResult.DisplayName,TestResult.Outcome,TestResult.Duration,TestResult.ResourceCount,RandomSeed
Persistence.CsvRows (well-formedness),Passed,00:00:00.5111503,987316,1
