TestResult.DisplayName,TestResult.Outcome,TestResult.Duration,TestResult.ResourceCount,RandomSeed
Persistence.CsvRows (well-formedness),Passed,00:00:00.3738557,655576,3
