# gh4a string helpers and background task, in Dafny

A model of two small pieces of the gh4a Android client:

- `com.gh4a.utils.StringUtils`, the string helpers the UI uses to shorten
  titles and descriptions into teasers, fall back to defaults, join a login
  and a display name, pick a file extension, double a string and spell bytes
  in hexadecimal. A Java `String` is a sequence of UTF-16 code units
  (`Char16`), so a character outside the Basic Multilingual Plane counts as
  two, exactly as `length()`, `indexOf` and `substring` count it. Java `null`
  is explicit: a possibly-null `String` is a `JString` (`Option<JavaString>`,
  `None` is null), and where the Java code throws on some input (a null file
  name or byte array, a negative length reaching `substring`, a byte array
  too long for `a.length * 2`) the model returns `Err` with the exception's
  name. A Java `byte` is held as its 8-bit two's-complement pattern.
- `com.gh4a.BackgroundTask`, an `AsyncTask` that runs `run()` on a worker,
  catches any exception into its `mException` field, and afterwards calls
  exactly one of `onError(mException)` or `onSuccess(result)`, chosen by the
  field. It is a class with the exception slot as a mutable field and a ghost
  record of the callbacks invoked; the subclass's `run()` is a parameter of
  type `Work` (returns a value, possibly null, or throws an exception).

Files: `wrappers.dfy` (Option, Result), `java_lang.dfy` (the `java.lang`
behaviour the helpers rely on: UTF-16 code units, `String.valueOf` of null,
`trim`, `indexOf`, `lastIndexOf`, `Character.forDigit`, 32-bit `int`
overflow, the byte, its widening to `int` and its masked nibbles),
`string_utils.dfy`, `background_task.dfy`.

## Model

| member | source | states |
|---|---|---|
| `JavaLang.TrimLeadingSuffix` | src/com/gh4a/utils/StringUtils.java:50 | the first loop of `trim()` removes a leading run of characters <= U+0020 and stops at the first other one |
| `JavaLang.TrimTrailingPrefix` | src/com/gh4a/utils/StringUtils.java:50 | the second loop of `trim()` removes a trailing run of characters <= U+0020 and stops at the last other one, keeping a prefix |
| `JavaLang.TrimIsEmptyIff` | src/com/gh4a/utils/StringUtils.java:50 | `trim()` yields "" exactly when every character is <= U+0020 |
| `JavaLang.IndexOf` | src/com/gh4a/utils/StringUtils.java:89 | `indexOf` gives -1 exactly when the character is absent, else the index of its first occurrence |
| `JavaLang.LastIndexOf` | src/com/gh4a/utils/StringUtils.java:311 | `lastIndexOf` gives -1 exactly when the character is absent, else the index of its last occurrence |
| `JavaLang.ForDigit` | src/com/gh4a/utils/StringUtils.java:207-208 | `Character.forDigit` gives '0'..'9' for 0..9, 'a'.. for 10.. and '\0' out of range |
| `JavaLang.Int32` | src/com/gh4a/utils/StringUtils.java:205 | Java `int` arithmetic: a product in 2^31..2^32-1 wraps to a negative value |
| `JavaLang.WidenKeepsValue` | src/com/gh4a/utils/StringUtils.java:207-208 | widening a byte to `int` by sign extension keeps its signed value |
| `JavaLang.MaskedNibbles` | src/com/gh4a/utils/StringUtils.java:207-208 | `(a[i] & 0xf0) >> 4` and `a[i] & 0x0f` on the sign-extended byte are the unsigned byte's high and low hex digits |
| `JavaLang.NibblesOfByte` | src/com/gh4a/utils/StringUtils.java:207-208 | the two masked nibbles are 0..15 and recombine to the unsigned byte |
| `StringUtils.IsBlankIff` | src/com/gh4a/utils/StringUtils.java:49-51 | blank holds exactly for null or a string whose every character is <= ' ', so "" is blank |
| `StringUtils.FormatLongText` | src/com/gh4a/utils/StringUtils.java:80-101 | blank gives ""; up to 20 UTF-16 code units unchanged; longer without newline gives its first 20 code units plus "..." (23 in all); longer with a newline gives the prefix before the first newline, of any length |
| `StringUtils.FormatLongTextTo` | src/com/gh4a/utils/StringUtils.java:110-122 | blank gives ""; otherwise a prefix of the text of length min(length, text length); a negative length on non-blank text throws StringIndexOutOfBoundsException |
| `StringUtils.FormatLongTextDot` | src/com/gh4a/utils/StringUtils.java:59-72 | blank gives ""; a text with '.' gives the prefix before its first '.'; otherwise the result of formatLongText |
| `StringUtils.DoTeaser` | src/com/gh4a/utils/StringUtils.java:130-153 | blank gives ""; otherwise a prefix without newline that, if it holds a '.', ends in the text's first '.', and stops only at the end of the text, before a newline or after that '.' |
| `StringUtils.IfNullDefaultTo` | src/com/gh4a/utils/StringUtils.java:220-232 | the first non-blank of ori and defaultTo, else ""; never null, and either "" or not blank |
| `StringUtils.FormatName` | src/com/gh4a/utils/StringUtils.java:241-251 | a non-blank name gives login (null as "null") followed by " - " and the name; a blank name gives the login reference itself |
| `StringUtils.GetFileExtension` | src/com/gh4a/utils/StringUtils.java:310-318 | null throws NullPointerException; no '.' gives ""; otherwise the suffix after the last '.', which has no '.', and filename == prefix + "." + result (a trailing '.' gives "") |
| `StringUtils.CopiesAdd` | src/com/gh4a/utils/StringUtils.java:164 | m copies followed by n copies of a string are m + n copies, which is why `val += val` doubles the count |
| `StringUtils.Repeat` | src/com/gh4a/utils/StringUtils.java:162-167 | count <= 0 returns val untouched; otherwise val (null read as "null") written 2^count times, of length |val|·2^count |
| `StringUtils.ToHex` | src/com/gh4a/utils/StringUtils.java:204-211 | null throws NullPointerException; 2^30 bytes or more overflow `a.length * 2` and throw NegativeArraySizeException; otherwise 2·|a| code units, all in 0-9a-f, unit 2i the high and 2i+1 the low nibble of a[i] |
| `StringUtils.DecodeHexOfHex` | src/com/gh4a/utils/StringUtils.java:204-211 | decoding the digit pairs of toHex's output recovers the bytes (round trip) |
| `Background.BackgroundTask.constructor` | app/src/main/java/com/gh4a/BackgroundTask.java:11-13 | a new BackgroundTask keeps the context; the exception slot starts null and no callback has run |
| `Background.BackgroundTask.GetContext` | app/src/main/java/com/gh4a/BackgroundTask.java:15-17 | returns the context given to the constructor (a const field) |
| `Background.BackgroundTask.DoInBackground` | app/src/main/java/com/gh4a/BackgroundTask.java:23-32 | a returned value (even null) is passed on and the slot is untouched; a thrown exception is stored in the slot, null is returned, nothing escapes |
| `Background.BackgroundTask.OnSuccess` | app/src/main/java/com/gh4a/BackgroundTask.java:46 | records one onSuccess(result) invocation and changes nothing else |
| `Background.BackgroundTask.OnError` | app/src/main/java/com/gh4a/BackgroundTask.java:48 | the default onError records its invocation and changes no state |
| `Background.BackgroundTask.OnPostExecute` | app/src/main/java/com/gh4a/BackgroundTask.java:34-42 | exactly one callback: onError with the stored exception when the slot is set, else onSuccess(result) |
| `Background.Execute` | app/src/main/java/com/gh4a/BackgroundTask.java:23-42 | after doInBackground then onPostExecute, exactly one callback was invoked: a run() that returns v (null included) leads to onSuccess(v), one that throws e to onError(e) with that very exception, and the slot holds e or stays null |

## Left out

- `md5Hex`: the digest is a `MessageDigest` call; only its `toHex` step is modelled.
- `convertStreamToString`: stream I/O.
- `formatDate`: locale-dependent `SimpleDateFormat`.
- `kbytesToMeg`, `toHumanReadbleFormat`: floating point and `DecimalFormat`.
- `Repeat`: a result longer than a Java string can hold (an `OutOfMemoryError` for large counts) is not modelled; lengths are unbounded.
- `FormatLongText`: the source's last `else` branch is unreachable (the text is either at most or more than 20 characters long), so the model has no such branch.
- `BackgroundTask.schedule` (`AsyncTaskCompat.executeParallel`), the worker and main threads, and `printStackTrace` logging: concurrency and platform calls. `Execute` runs the two phases in sequence in the order `AsyncTask` guarantees.
- `Background.BackgroundTask.DoInBackground`: a `Throwable` that is not an `Exception` (a `java.lang.Error`) is not caught by the source and would escape; `Work` has no such case.
- `Background.BackgroundTask.OnSuccess`: the subclass's body is not visible; only its invocation is recorded. Likewise an overriding `onError` is not modelled, only the default no-op.
- `AsyncTask.onPostExecute` (the `super` call) does nothing and is not modelled.
- `ReleaseListActivity` and `RssParser` are not part of this model: Android UI plumbing and delegated XML parsing.
