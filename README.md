# Package-name validation of the Puffs code generator

Puffs compiles a memory-safe data-format language. Its generator driver
(`lang/generate/generate.go`) takes a `-package_name` flag. Before anything is
generated, `checkPackageName` validates and normalises that flag. This project
models that validator in Dafny, together with the way `Do` turns its empty
result into an error, and proves what the validator promises.

A Go `string` is a sequence of bytes, and `s[i]` reads one byte. A name is
therefore a `seq<Byte>`, where `Byte` is the integers 0 to 255. `strings.ToLower`
is modelled as the ASCII per-byte map `A`-`Z` to `a`-`z`. This is exact here:
lower-casing runs only after the scan has rejected every byte outside
`[A-Za-z0-9_]`.

- `Generate.Checked` is the validator stated without its loop.
- `Generate.CheckPackageName` is the loop itself, with the early return and the
  `allUnderscores` flag. It is proved equal to `Checked`.
- The lemmas state the accept/reject split, the shape of an accepted name,
  idempotence and case-insensitivity.

## Model

| member | source | states |
|---|---|---|
| `Generate.CheckPackageName` | lang/generate/generate.go:66-84 | The byte scan with early exit and the all-underscores flag, then lower-casing and the reserved test, returns exactly `Checked(s)`. The loop keeps "every byte so far is a name byte" and "flag == every byte so far is `_`". |
| `Generate.ToLower` | lang/generate/generate.go:79 | Lower-casing keeps the length. Each `A`-`Z` byte becomes the letter 32 higher, in `a`-`z`. Every other byte is unchanged. |
| `Generate.ValidatePackageNameFlag` | lang/generate/generate.go:38-41 | The driver fails with "prohibited package name", quoting the name as given, exactly when the name has a bad byte, is all underscores or lower-cases to a reserved name. Otherwise it gets the non-empty, non-reserved lower-cased name. |
| `Generate.NonNameByteRejected` | lang/generate/generate.go:68-74 | Any byte outside `[A-Za-z0-9_]` makes the result empty. |
| `Generate.AllUnderscoresRejected` | lang/generate/generate.go:67-78 | A name made only of `_` is rejected. This includes the empty name, because the flag starts true. |
| `Generate.ReservedRejected` | lang/generate/generate.go:79-82 | A name whose lower-cased form is `base`, `base_header` or `base_impl` is rejected, whatever its case. |
| `Generate.ReservedSpellingsRejected` | lang/generate/generate.go:79-82 | `BASE` passes the byte scan and is still rejected. `Base_Impl` is rejected too. So the reserved test comes after lower-casing. |
| `Generate.AcceptedIff` | lang/generate/generate.go:66-84 | The result is non-empty if and only if all three tests pass. A non-empty result is the lower-cased input. It has the input's length and differs only at `A`-`Z` bytes, each raised by 32. |
| `Generate.LowerByteClass` | lang/generate/generate.go:70-79 | Lower-casing one byte keeps it in `[A-Za-z0-9_]` exactly when it was there, lands in `[a-z0-9_]`, and yields `_` only from `_`. |
| `Generate.ToLowerKeepsScan` | lang/generate/generate.go:70-79 | A name passes the byte scan, and is all underscores, exactly when its lower-cased form is. |
| `Generate.AcceptedAlphabet` | lang/generate/generate.go:70-79 | An accepted name holds only `[a-z0-9_]` and has at least one byte other than `_`. |
| `Generate.ToLowerIdempotent` | lang/generate/generate.go:79 | Lower-casing twice gives the same name as lower-casing once. |
| `Generate.Idempotent` | lang/generate/generate.go:66-84 | Validating an accepted name again returns it unchanged. |
| `Generate.CaseInsensitive` | lang/generate/generate.go:70-83 | Two names that agree after ASCII lower-casing get the same result. |
| `Generate.NeverReserved` | lang/generate/generate.go:80-83 | The result is never one of the three reserved names, so the caller may treat only the empty name as rejection. |

## Left out

- `Do`'s flag parsing (`flag.FlagSet`), the call into the generator callback and the write to standard output are I/O and driver glue. Only its use of the validator's empty result as an error (lines 38-41) is modelled.
- `parseFiles` reads standard input and files. It is I/O and is not modelled.
- `token.Tokenize`, `parse.Parse`, `check.Check` and the `Generator` callback live in packages outside this file. The tokenizer, parser, fact-based checker and code generator are not part of this model.
- `Generate.ToLower`: the general Unicode behaviour of `strings.ToLower` is not modelled. It is unreachable, because every non-ASCII byte is rejected before lower-casing.
- The error value is modelled as a datatype holding the name. The `%q` quoting of the message text is not modelled.
