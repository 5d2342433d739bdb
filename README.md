# implant, modelled in Dafny

`implant` turns a directory tree into a generated Go source file that embeds
every file's contents, gzipped and hex-encoded, so a program can read those
resources without touching the filesystem. This project models the
collection and encoding pipeline of `implant.go`:

- **Input check** (`CheckInput`): the root must stat successfully and be a directory.
- **Admission** (`ShouldInclude`): a walked path is kept only if its stat succeeds,
  it is a regular file, and a non-empty `Exclude` regular expression does not match
  anywhere in the full path.
- **Collection** (`findFiles`): the walk is filtered into `fileList` in walk order;
  then every listed file is read, gzipped at `BestSpeed`, hex-encoded and turned
  into a `Resource{Filename, Contents, Length}`. The first read or compression
  failure aborts with no partial list.
- **Hex encoding** (`hex.EncodeToString`): base16 as in section 8 of RFC 4648 with
  the lowercase alphabet, together with the matching decoder of Go's
  `encoding/hex`, so that the round trip can be stated.
- **Driver** (`Implant`): the early exits: a bad root exits, a collection error
  stops, an empty collection stops, a failed render stops, otherwise the
  (optionally gofmt-formatted) text is written to the output path.

Files, one module each unless noted:

| file | module | what it holds |
|---|---|---|
| wrappers.dfy | `Wrappers` | `Option`, `Result` |
| hex.dfy | `Hex` | `byte`, `Encode`, `Decode` and their lemmas |
| fs.dfy | `Fs` | the filesystem as a map from path to entry; `Stat`, `ReadFile` |
| filter.dfy | `Filter`, `FilterExamples` | `Config`, `CheckInput`, `ShouldInclude`; a literal-and-dot search standing in for the regexp engine, and the exclusion cases of the tests |
| encoder.dfy | `Encoder` | `Resource`, `EncodeFile` (one path), `EncodeAll` (the record loop as a function) |
| scanner.dfy | `Scanner` | `Admitted` (the walk filter), `Collect`, and the methods `ScanWalk`, `EncodeFiles`, `FindFiles` |
| driver.dfy | `Driver`, `DriverExamples` | `Implant` and its outcomes; whole runs over a small tree |

The external collaborators are parameters: the walk is a given sequence of
paths (in the order `filepath.Walk` visits them, root first), the filesystem a
map, the regular-expression match a `Matcher`, gzip a `Compressor` that may
fail, the template renderer a `Renderer` that may fail, and gofmt a
`Formatter`. The process-wide `ConfigOptions` becomes a `Config` value passed in.

`findFiles` is one Go function with two loops; the model gives each loop its
own method (`ScanWalk` for the walk callback, `EncodeFiles` for the record
loop) and `FindFiles` runs them in sequence. Each method is proved equal to a
specification function (`Admitted`, `EncodeAll`), and the properties are
proved about those functions.

Behaviour of the code worth knowing:

- A directory whose children cannot be listed does not fail the scan:
  `filepath.Walk` hands the error to the callback, which ignores it and returns
  nil. `filepath.Walk` therefore never returns an error here, and the check at
  implant.go:185-187 cannot fire; the model has no walk error.
- The compression error carries no path (`Error.CompressError`); only the read
  error names the file.
- Only a bad root exits the process with status 1. A collection error, an
  empty collection or a render failure print a message and return normally.
  The model keeps these four endings distinct (`Outcome`).

## Model

| member | source | states |
|---|---|---|
| `Hex.HexChar` | implant.go:224 | each digit value maps to the character of the lowercase alphabet `0123456789abcdef` at that index, which is a lowercase hex digit |
| `Hex.DigitValue` | implant.go:224 | a character has a digit value exactly when it is `0-9`, `a-f` or `A-F` (the decoder accepts both cases) |
| `Hex.DigitValueOfHexChar` | implant.go:224 | decoding the character written for a digit value gives that value back |
| `Hex.Encode` | implant.go:224 | the encoding is twice as long as the bytes and every character lies in `0-9a-f` |
| `Hex.EncodeAt` | implant.go:224 | byte i is written at positions 2i and 2i+1, high nibble first |
| `Hex.Decode` | implant.go:224 | a successful decode yields half as many bytes as there are characters |
| `Hex.DecodeEncode` | implant.go:224 | decoding the encoding of any byte sequence, the empty one included, gives exactly those bytes |
| `Hex.EncodeInjective` | implant.go:224 | two byte sequences with the same encoding are equal |
| `Hex.DecodeOkIff` | implant.go:224 | decoding succeeds exactly on strings of even length made only of hex digits |
| `Hex.DecodeReportsFirstInvalid` | implant.go:224 | a string with a non-digit is refused naming the first non-digit, whatever its length |
| `Hex.DecodeOddLength` | implant.go:224 | an odd-length string of digits is refused for its length |
| `Hex.EncodeDecode` | implant.go:224 | every even-length lowercase hex string is the encoding of what it decodes to |
| `Fs.Stat` | implant.go:115-132 | the stat fails exactly on a path with no entry, and reports a directory or a regular file exactly when the entry is one |
| `Fs.ReadFile` | implant.go:200-203 | a read succeeds only on a path whose stat reports a regular file |
| `Filter.CheckInput` | implant.go:66-83 | the root is accepted exactly when its stat succeeds and reports a directory; a missing root or a regular file is refused |
| `Filter.ShouldInclude` | implant.go:110-153 | a path whose stat fails or that is not a regular file is rejected whatever `Exclude` is; a regular file is admitted exactly when `Exclude` is empty or does not match the whole path |
| `Filter.RootNeverAdmitted` | implant.go:126-132 | a root that passes the input check is never itself admitted as a resource |
| `Filter.Search` | implant.go:143 | the stand-in for `regexp.MatchString` (literal characters, and `.` for any character except a newline) finds a match only in a path at least as long as the pattern; what it finds is fixed by `Filter.SearchIff` |
| `Filter.SearchIff` | implant.go:143 | the stand-in matcher finds a match exactly when the pattern matches starting at some position of the path |
| `Filter.SearchUnanchored` | implant.go:143 | the match is unanchored: a path that matches still matches with any text before and after it |
| `FilterExamples.AdmitsTest` | implant_test.go:96-97 | with `Exclude` = `/.git`, a regular file `test` in the temporary directory is admitted |
| `FilterExamples.AdmitsGit` | implant_test.go:99 | with `Exclude` = `/.git`, a regular file `git` is admitted, since no character precedes `git` after the slash |
| `FilterExamples.RejectsGitLike` | implant_test.go:98-101 | with `Exclude` = `/.git`, any name whose first character is not a newline and whose second to fourth characters are `git`, such as `tgit`, `.git` and `.gitignore`, is rejected |
| `FilterExamples.AdmitsNewlineGit` | implant.go:137-147 | with `Exclude` = `/.git`, a regular file named newline-then-`git` is admitted, because `.` does not match a newline |
| `Encoder.EncodeFile` | implant.go:195-226 | a read failure gives a read error naming the path, a gzip failure gives a compression error; otherwise the record has the path as its name, the uncompressed length, contents twice as long as the gzipped bytes, all lowercase hex, that decode to exactly the gzipped bytes |
| `Encoder.ResourceRoundTrip` | implant.go:223-225 | given a gunzip that undoes gzip, hex-decoding then gunzipping a record's contents gives the bytes read, and their count is the record's length |
| `Encoder.EncodeAll` | implant.go:190-228 | the record loop succeeds exactly when every path can be read and compressed, and then gives one record per path, in order, each the one `EncodeFile` gives |
| `Encoder.EncodeAllErrPrefix` | implant.go:200-216 | once the records of a prefix fail, the whole loop fails with that same error |
| `Encoder.EncodeAllFirstError` | implant.go:200-216 | the error returned is that of the first path that cannot be read or compressed |
| `Scanner.Admitted` | implant.go:168-184 | the walk filter is never longer than the walk; which paths it keeps and in what order is stated by `Scanner.AdmittedMembers` and `Scanner.AdmittedIsOrderedSelection` |
| `Scanner.AdmittedMembers` | implant.go:168-184 | the list holds exactly the walked paths that `ShouldInclude` admits |
| `Scanner.AdmittedAppend` | implant.go:168-184 | filtering a walk made of two parts is filtering each part, results kept in order |
| `Scanner.AdmittedEmptyIff` | implant.go:168-184 | the list is empty exactly when no walked path is admitted |
| `Scanner.AdmittedIsOrderedSelection` | implant.go:168-184 | the list is the walk's admitted paths in walk order: its entries sit at strictly increasing walk positions, and every admitted walk position is among them |
| `Scanner.Collect` | implant.go:159-229 | `findFiles`' result: it succeeds exactly when every admitted path can be read and compressed, and then has one record per admitted path |
| `Scanner.CollectRecords` | implant.go:190-228 | on success there is one record per admitted path in walk order, with that path as its name, the file's length, and contents that decode to the gzipped bytes; on failure the error is that of the first admitted path that cannot be read or compressed |
| `Scanner.ScanWalk` | implant.go:165-184 | the walk loop leaves `fileList` equal to the filtered walk |
| `Scanner.EncodeFiles` | implant.go:189-228 | the record loop returns what `EncodeAll` gives: all records, or the first error with no partial list |
| `Scanner.FindFiles` | implant.go:159-229 | `findFiles` returns the records of the admitted paths or the first error |
| `Driver.Implant` | implant.go:281-353 | the run exits exactly when the input check fails, fails exactly when collection fails (with its error), stops with no files exactly when collection gives no records, and writes exactly when all four steps succeed, to the output path, the rendered text, formatted when `Format` is set |
| `Driver.WrittenOnlyWhenComplete` | implant.go:293-312 | output is written only if some walked path was admitted and every admitted path was read and compressed, from one record per admitted path in walk order |
| `Driver.NothingAdmitted` | implant.go:309-312 | a valid root in which no walked path is admitted ends with "no files" and nothing written |
| `DriverExamples.ThreeFiles` | implant.go:159-229 | a root with `a` ("hi"), `b` (two bytes) and `sub/c` ("x") and no exclusion gives three records in walk order with lengths 2, 2, 1, and the run writes if rendering succeeds |
| `DriverExamples.ExcludeOne` | implant.go:137-147 | an exclusion pattern matching only `b` leaves the records of `a` and `c`, in that order |
| `DriverExamples.MissingRoot` | implant.go:293-295 | a root whose stat fails ends the run at the input check, before any scan or write |

## Left out

- Filesystem I/O: `os.Stat` and `ioutil.ReadFile` are replaced by a map from
  path to entry, read as one snapshot, so a file that changes between the walk
  and the read is not modelled. `ioutil.WriteFile` is not performed: the
  `Written(destination, text)` outcome records the call, whose error
  implant.go:352 ignores. Reading an entry that is
  neither a directory nor a regular file fails in the model; such entries are
  never admitted, so the record loop never reads one.
- The traversal of `filepath.Walk` (lexical order, root first): the walk is a
  given sequence of paths.
- The gzip/DEFLATE algorithm: `Compressor` is an opaque function that may fail;
  the ignored error of `gw.Close()` is reflected only in that the compressor's
  result is the buffer, whatever closing reports.
- The `regexp` engine: `Matcher` is a parameter, with compile errors reading as
  no match. `Filter.Search` covers only patterns of literal characters and `.`
  (any character but a newline), enough for the exclusion examples.
- `renderTemplate`, `text/template` and the generated `getResource`: `Renderer`
  is a parameter that may fail.
- `PipeCommand`, which runs the external `gofmt`: `Formatter` is a parameter.
- `main`: flag parsing and version printing; verbose diagnostics; `os.Exit`,
  which becomes the `Exit` outcome. The `Verbose` and `Version` settings are
  not part of `Config` because they only affect printing.
- `Hex.Decode`: Go's `DecodeString` also returns the bytes decoded before an
  error, and it reports an invalid byte where the model reports the
  character; the model returns only the error.
- `Encoder.Resource`: `Length` is a Go `int`; the model uses an unbounded `nat`,
  since no file read whole into memory reaches 2^63 bytes.
- The tests implant_test.go and static_test.go are not modelled as code; their
  cases appear as the example lemmas.
