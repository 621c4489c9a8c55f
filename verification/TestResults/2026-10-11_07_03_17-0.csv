TestResult.DisplayName,TestResult.Outcome,TestResult.Duration,TestResult.ResourceCount,RandomSeed
Domains.Host5PointerArrayOverread (correctness),Failed,00:00:01.2409002,2065494,0
Domains.Host5PointerArrayOverread (well-formedness),Passed,00:00:00.1608716,41749,0
