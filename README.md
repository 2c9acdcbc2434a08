# Verified model of the sample project's Fibonacci function

The code assistant's repository ships a small sample project that it uses to
exercise itself. Its one piece of logic is `calculate_fibonacci(n)`: an
integer recurrence that returns `n` when `n <= 1` and otherwise the sum of the
two preceding values. This project models that function in Dafny
(`fibonacci.dfy`, module `SampleProject`) and proves its behaviour:

- the mathematical recurrence terminates on every integer (Dafny checks
  `decreases n`); the Python function's recursion-depth limit is not modelled;
- on every `n <= 1`, negatives included, it returns `n`;
- the recurrence holds at `n` exactly when `n >= 2`;
- it is non-negative from 0 on and at least 1 from 1 on;
- on natural numbers it equals an independent reference definition of the
  Fibonacci numbers (a linear walk over consecutive pairs), and on negative
  numbers it returns its argument rather than the negafibonacci value;
- it is non-decreasing over all integers and strictly increasing from 2 on;
- it yields the values the sample project's test asserts (0, 1, 5, 55).

Python integers are unbounded, so the model uses Dafny's `int` with no
wrap-around.

## Model

| member | source | states |
|---|---|---|
| `SampleProject.CalculateFibonacci` | sample_codeas_project/main.py:10-14 | the recurrence of main.py:12-14 on integer arguments, total as a mathematical function; the result is non-negative for `n >= 0` and at least 1 for `n >= 1` |
| `SampleProject.BaseCaseReturnsArgument` | sample_codeas_project/main.py:12-13 | every `n <= 1`, including negative `n`, is returned unchanged |
| `SampleProject.RecurrenceExactlyFromTwo` | sample_codeas_project/main.py:12-14 | `f(n) == f(n-1) + f(n-2)` holds if and only if `n >= 2` |
| `SampleProject.FibStepShift` | sample_codeas_project/main.py:14 | walking the reference pair recurrence `k` steps from `(f(j), f(j+1))` reaches `f(j+k)` |
| `SampleProject.AgreesWithReference` | sample_codeas_project/main.py:10-14 | for `n >= 0` the result is the textbook Fibonacci number `Fib(n)`; for `n < 0` it is `n` |
| `SampleProject.Monotone` | sample_codeas_project/main.py:12-14 | `m <= n` implies `f(m) <= f(n)` for all integers |
| `SampleProject.StrictlyIncreasingFromTwo` | sample_codeas_project/main.py:14 | for `n >= 2`, `f(n) < f(n+1)` |
| `SampleProject.TestFibonacci` | sample_codeas_project/test_main.py:4-8 | `f(0) == 0`, `f(1) == 1`, `f(5) == 5`, `f(10) == 55` (55 is also the value the script prints, main.py:18) |

## Left out

- `hello_world` and the `__main__` block of `sample_codeas_project/main.py`: they only print to the console.
- The file manager with backup-on-write, per-file history and single-step undo (`ai_coder/operations/file_manager.py`): it is not part of this model. `demo.py` only calls it, and its behaviour cannot be stated faithfully from call sites alone.
- `main.py`, `server.py`, `test.py`, `test_enhanced.py`, `test_natural.py`, `test_installation.py`, `demo.py`: command-line parsing, process spawning, a JSON-over-stdio server, HTTP calls to a model endpoint, package installation and temporary-directory file work. These are I/O and external services. The copies of the sample project written by `test_installation.py` are identical to the files modelled here.
- SampleProject.CalculateFibonacci: does not model Python's recursion-depth limit (1000 frames by default). The left call `calculate_fibonacci(n-1)` runs first, so the stack grows to about `n` frames. For `n` around 1000 or more the Python function raises `RecursionError`, where the model returns the Fibonacci value.
- SampleProject.CalculateFibonacci: takes `int` arguments only. The Python function has no type restriction. A float such as `2.5` returns `0.5`, and a string raises `TypeError`. Every caller in the repository passes an integer literal (main.py:18, test_main.py:5-8).
- Running time: the source's doubly recursive evaluation takes exponential time. The model states values only, not cost.
