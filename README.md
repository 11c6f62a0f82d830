# goos3get: decimal byte-count formatting, verified

goos3get downloads one S3 object to a local file and prints progress. The
program's own logic is `byteCountDecimalSize`. It turns a byte count (an
`int64`) into a human-readable size with decimal SI prefixes. Each prefix step
is x1000, and the prefixes are k, M, G, T, P and E. The function is used for
the object size at start-up and for every progress line.

This project models that function in Dafny:

- `ByteCount.ByteCountDecimalSize` is the source's loop, written as a method.
  It has the same guard (`size < 1000`) and updates the same variables `div`,
  `exp` and `n` in the same `while` loop. It ends with the same index into
  `"kMGTPE"`. `div` and `n` use an `int64` newtype, so the verifier checks
  that `div *= 1000` never overflows. The index `"kMGTPE"[exp]` is checked
  to be in bounds for every `int64` input.
- `ByteCount.Scale` is the specification of the method. Below 1000 it gives
  the plain count. Its body computes the exponent with `Steps`, which is the
  loop's `n >= 1000; n /= 1000` in recursive form. What is independent of the
  loop is `Scale`'s contract: the exponent is the one `e` with
  `1000^(e+1) <= size < 1000^(e+2)` (the predicate `Fits`).
  `ScaleExponentIsUnique` proves that no other exponent meets it.
- The unit suffix (`"B"` or the prefix character followed by 'B') is
  `ByteCount.UnitText`. `ByteCount.ParseUnit` reads it back.
- The plain `"%d B"` text is modelled as integer rendering (`Decimal.IntText`).
  A parser (`Decimal.ParseDecimal`) reads the text back, which gives a
  round-trip proof.
- The scaled `"%.1f %cB"` text is not rendered. The model keeps the exact
  rational `size / div` as the pair `(size, div)`, and also the prefix
  character.

Go's `/` truncates toward zero, and Dafny's `/` is Euclidean. Every division
in the loop has a positive dividend and divisor, where the two agree.

## Model

| member | source | states |
|---|---|---|
| `ByteCount.ByteCountDecimalSize` | main.go:33-46 | The loop's result is exactly the specification `Scale(size)`: the plain count below 1000, otherwise the one fitting divisor, exponent and prefix. Along the way `div *= 1000` stays inside int64, the loop terminates (`n` decreases), and `"kMGTPE"[exp]` is in bounds for every int64 input. The invariants are `div == 1000^(exp+1)`, `n == size/div` and `0 < div <= size`. |
| `ByteCount.Scale` | main.go:33-46 | The result is plain exactly when `size < 1000`, and then it carries the size unchanged. Otherwise `div == 1000^(exp+1)`, size lies in `[div, 1000*div)`, `exp < 6`, and the prefix is `"kMGTPE"[exp]`. |
| `ByteCount.SmallSizesArePlain` | main.go:35-37 | Every size below 1000, negative sizes included, takes the plain branch, with the size unchanged and no division. |
| `ByteCount.PlainText` | main.go:36 | The plain text ends in " B", and the part before it parses back to the size. |
| `ByteCount.UnitTextRoundTrip` | main.go:46 | Reading back the unit text of any size gives whether it was plain and, if not, its exponent. |
| `ByteCount.UnitTextIdentifiesScale` | main.go:46 | Two sizes get the same unit text if and only if both are plain or both use the same exponent. So the six prefixes and the plain "B" are all told apart. |
| `ByteCount.ScaledQuotientInRange` | main.go:39-44 | For every size >= 1000, the scaled quotient `size / div` lies in `[1, 1000)`. |
| `ByteCount.DivisorAtMostSize` | main.go:42 | The chosen divisor lies between 1000 and the size, so it is a valid int64 and the last `div *= 1000` did not overflow. |
| `ByteCount.ScaleExponentIsUnique` | main.go:39-44 | An exponent fits a size if and only if it is the chosen one. So `1000^(exp+1)` is the largest power of 1000 (from 1000 up) that is not above the size. |
| `ByteCount.FitsUnique` | main.go:39-44 | At most one exponent satisfies `1000^(e+1) <= size < 1000^(e+2)`. |
| `ByteCount.ExponentFits` | main.go:39-44 | The number of loop iterations, `Steps(size/1000)`, is an exponent that fits the size. |
| `ByteCount.StepsBracket` | main.go:41 | Counting divisions by 1000 while the quotient is at least 1000 places `n` between `1000^Steps(n)` and `1000^(Steps(n)+1)`. |
| `ByteCount.DivDiv` | main.go:41 | Dividing by `div` and then by 1000 equals dividing by `div * 1000`. This keeps `n == size / div` through `n /= unit`. |
| `ByteCount.Int64ExponentBound` | main.go:41-46 | For every int64 size, a fitting exponent is at most 5, so `"kMGTPE"[exp]` is in bounds. |
| `ByteCount.ScaleMonotone` | main.go:39-46 | When `1000 <= size1 <= size2`, the prefix chosen for `size1` is not later than the one for `size2`. |
| `ByteCount.Example999` | main.go:35-37 | 999 takes the plain branch and renders as "999 B". |
| `ByteCount.Example1000` | main.go:39-46 | 1000 selects 'k' with `div == 1000`, and its unit text is "kB". |
| `ByteCount.Example999999` | main.go:39-46 | 999999 still selects 'k' with `div == 1000`. |
| `ByteCount.ExampleOneMillion` | main.go:39-46 | 1000000 selects 'M' with `div == 1000000`. |
| `ByteCount.ExampleOneAndAHalfMillion` | main.go:39-46 | 1500000 selects 'M' with `div == 1000000`, and size/div is exactly 3/2 (shown as "1.5 MB"). |
| `ByteCount.ExampleInt64Max` | main.go:41-46 | The largest int64 gets `exp == 5`, prefix 'E' and `div == 10^18`. |
| `Decimal.IntTextRoundTrip` | main.go:36 | Parsing the `%d` text of any integer gives that integer back. |
| `Decimal.IntTextInjective` | main.go:36 | Different sizes have different `%d` texts. |

## Left out

- ByteCount.ByteCountDecimalSize: returns the divisor and prefix, not the `"%.1f %cB"` string. The `%.1f` rendering of `float64(size)/float64(div)` is floating-point formatting (rounding, and loss of precision above 2^53), so the model keeps the exact pair `(size, div)` instead. Because `%.1f` rounds, the printed number can be 1000.0 even though the exact quotient is below 1000. For example, sizes 999_950 to 999_999 print as "1000.0 kB", and 999_950_000 to 999_999_999 print as "1000.0 MB". `ByteCount.ScaledQuotientInRange` and `ByteCount.Example999999` hold for the exact quotient, not for the printed number.
- `getFileSize` (main.go:19-31) is one call to the SDK's `HeadObject`, with no logic of its own.
- `main` (main.go:49-110) is flag parsing, `log.Fatalf` exits, session setup and `os.Create`. These are CLI and I/O glue.
- The download itself (main.go:78, 101-104) is done by `s3manager.Downloader` of the AWS SDK for Go. That includes range splitting, parallel fetching, retries and offset writes. The SDK is not part of this model, and this repository contains no such code to model.
- The progress goroutine (main.go:89-98) is concurrency around the external `progress` library (`NewWriterAt`, `NewTicker`). The remaining-time estimate comes from that library, which is not part of this model.
