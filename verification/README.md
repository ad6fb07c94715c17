# Trial-division primality test

A Dafny model of `is_prime` in `practice_project/is_prime.py`. The function
decides primality by trial division. Numbers up to 1 are not prime, and 2
and 3 are. For larger numbers a counter `i` starts at 2 and goes up while
`i * i <= number`. The function answers `False` as soon as `i` divides
`number`. If the loop runs out, it answers `True`.

The model is in `is_prime.dfy`, module `Primality`:

- `IsPrime` is the specification. A number is prime when it is greater than
  1 and has no divisor strictly between 1 and itself.
- `IsPrimeImpl` is the source's function as a method, with the same guard
  clauses, the same loop and the same early returns. It is proved to answer
  exactly `IsPrime(number)`.
- The loop keeps one invariant: no integer in `[2, i)` divides `number`.
  Termination is proved with the measure `number - i`.
- The square-root cutoff on line 8 is justified by `SquareRootCutoff`. It
  rests on `Cofactor`: every proper divisor has a proper cofactor, and the
  smaller of the two is at most the square root.

Python's `int` is unbounded, so Dafny's `int` models it without any
wrap-around. Every remainder the function takes is of a positive number by
a positive divisor, and there Python's floored `%` and Dafny's Euclidean
`%` give the same result.

## Model

| member | source | states |
|---|---|---|
| `Primality.IsPrimeImpl` | practice_project/is_prime.py:1-12 | The result is true exactly when `number > 1` and no `d` with `1 < d < number` divides it. Any `number <= 1`, including zero and negatives, gives false. 2 and 3 give true. The loop keeps `2 <= i <= number` and "no divisor in [2, i)", and it terminates. |
| `Primality.SmallDivisorRefutes` | practice_project/is_prime.py:8-10 | When the loop returns false, the current `i` witnesses compositeness. It satisfies `2 <= i` and `i * i <= number` and divides `number`, so `1 < i < number` and `number` is not prime. |
| `Primality.ExitImpliesNoDivisorUpToRoot` | practice_project/is_prime.py:8-12 | When the loop exits with `i * i > number` and no divisor in [2, i), no `d >= 2` with `d * d <= number` divides `number`. |
| `Primality.SquareRootCutoff` | practice_project/is_prime.py:8 | For `n > 1`: `n` is prime if and only if no `d >= 2` with `d * d <= n` divides it. Both directions are proved. |
| `Primality.Cofactor` | practice_project/is_prime.py:8 | A proper divisor `d` of `n` has a cofactor `e` with `d * e == n`, and `e` is also a proper divisor. |
| `Primality.SourceExamplesSpec` | practice_project/is_prime.py:14-16 | The expected values in the file's own comments hold of the specification: 1 is not prime, 3 and 7 are. |
| `Primality.SourceExamples` | practice_project/is_prime.py:14-16 | The implementation returns false on 1 and true on 3 and 7. |

## Left out

- The `print` calls at practice_project/is_prime.py:14-16 are console output. Only their expected values are kept, in `SourceExamplesSpec` and `SourceExamples`.
- practice_project/weather_forecast.py is not part of this model. It is an HTTP client over floating-point coordinates and untyped decoded JSON. Its remaining pieces only pass values through: the mock echo and the handler delegation. It also runs module-level code that prints.
- get_system_hostname.py is not part of this model. It makes one operating-system call (`socket.gethostname`) and prints the result or the error.
