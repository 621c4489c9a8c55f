TestResult.DisplayName,TestResult.Outcome,TestResult.Duration,TestResult.ResourceCount,RandomSeed
Domains.RoundUpExceeds (correctness),Passed,00:00:00.1845328,23216,0
