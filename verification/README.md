# Calamari logger and zip entry accounting, modelled in Dafny

This project models two pieces of the Calamari deployment agent.

The first is the **structured-output logger** of `Log.cs`. The logger writes plain messages and service messages
(`##octopus[...]` lines) to standard output and errors to standard error. It keeps one piece of process-wide
state: the current standard-output mode. It announces every change of mode with a marker line
`##octopus[stdout-<mode>]`. `Verbose`, `Info` and `Warn` write in the modes `verbose`, `default` and `warning`.
`Error` writes to standard error and leaves the mode alone. Service-message values are converted to bytes by
the platform's default code page and then Base64-encoded, using the standard alphabet with `=` padding from
section 4 of RFC 4648.

The second is the **entry accounting of `ZipPackageExtractor`**. While it extracts an archive, the extractor
counts the file entries. It also warns about each lifecycle script (`Deploy.ps1`, `PreDeploy.ps1`,
`PostDeploy.ps1`, `DeployFailed.ps1`) that sits in a sub-folder, because such a script will not be run.

Modules, one per concept:

- `Wrappers` (`wrappers.dfy`): `Option`.
- `Base64` (`base64.dfy`): the encoder, and a decoder as its partner definition.
- `Decimal` (`decimal.dfy`): invariant-culture rendering of a `long`, and a parser as its partner.
- `ServiceMessageLine` (`service_message_line.dfy`): the `##octopus[name key="value" ...]` line format, and a
  parser as its partner. The parser is how an orchestrator reads a line back.
- `Logger` (`logger.dfy`): the logger as a pure transition over `State(mode, stdout, stderr)`. Also:
  `ConvertServiceMessageValue` and `SetOutputVariable`.
  `Interpret` is the partner of the logger: an orchestrator's reading of standard output, where a marker
  sets the mode and every other line is a message in that mode.
- `ServiceMessages` (`service_messages.dfy`): `PackageFound` and `DeltaVerification` of `Log.ServiceMessages`.
- `ZipPackageExtractor` (`zip_package_extractor.dfy`): the archive is a sequence of
  `Entry(fileName, isDirectory)`. The warnings are written through the logger model.

Inputs the source takes from its environment are parameters here:

- `codePage: string -> seq<byte>` stands for `Encoding.Default`.
- `Platform` (`Windows` or `Unix`) decides the directory separators.
- The logger state is passed in and returned. It replaces the static `stdOutMode` and the
  `StdOut`/`StdErr` writers.

The deployment journal and retention-policy code that `CleanFixture.cs` drives is not part of this model.

## Model

| member | source | states |
|---|---|---|
| `Base64.Encode` | source/Calamari/Log.cs:53-56 | The encoding of n bytes has 4·⌈n/3⌉ characters. All of them are alphabet characters except the last (3 − n mod 3) mod 3, which are `=`. |
| `Base64.DecodeEncode` | source/Calamari/Log.cs:108-111 | Decoding the encoding of any byte sequence gives back exactly that sequence. |
| `Base64.EncodeDecode` | source/Calamari/Log.cs:53-56 | Every string that decodes is the encoding of its decoded bytes. So the encoder is a bijection onto canonical Base64. |
| `Base64.EncodeInjective` | source/Calamari/Log.cs:108-111 | Different byte sequences never share an encoding. |
| `Base64.RfcTestVectors` | source/Calamari/Log.cs:55 | The encoder reproduces the test vectors of section 10 of RFC 4648 for "f", "fo" and "foobar". |
| `Decimal.Format` | source/Calamari/Log.cs:132 | The rendering of a `long` is non-empty. It starts with `-` exactly when the value is negative, and every other character is a decimal digit. There is at least one digit, and the first digit is `0` only for the value zero, whose rendering is `0`: no leading zeros. |
| `Decimal.FormatParse` | source/Calamari/Log.cs:132 | Parsing the rendering of any `long` gives back the value. |
| `Decimal.FormatInjective` | source/Calamari/Log.cs:132 | Different sizes never share a rendering. |
| `ServiceMessageLine.ParseFormat` | source/Calamari/Log.cs:48 | A service message line reads back as its name and its attributes, in order. This holds when the name is non-empty without spaces, no key has `=` and no value has `"`. |
| `ServiceMessageLine.FormatOfParse` | source/Calamari/Log.cs:48 | The converse of `ParseFormat`: every line that reads back as a message is well-formed and is exactly the line written for that message. |
| `ServiceMessageLine.FormatInjective` | source/Calamari/Log.cs:119-123 | Two well-formed messages written as the same line are the same message. |
| `Logger.SetMode` | source/Calamari/Log.cs:25-30 | Afterwards the mode is the requested one. A marker for it is appended exactly when the mode differs from the current one; otherwise the state is unchanged. |
| `Logger.Verbose` | source/Calamari/Log.cs:32-39 | The mode becomes `verbose`. Standard output gains the marker only if the mode changed, then the message as its last line. Standard error is unchanged. |
| `Logger.Info` | source/Calamari/Log.cs:63-70 | The same as `Verbose`, for the mode `default`. |
| `Logger.Warn` | source/Calamari/Log.cs:77-84 | The same as `Verbose`, for the mode `warning`. |
| `Logger.Error` | source/Calamari/Log.cs:91-99 | The message is appended to standard error only. Standard output and the mode are unchanged. |
| `Logger.SameModeNoMarker` | source/Calamari/Log.cs:27 | A second call in the same mode appends only its message, with no marker. |
| `Logger.FirstCallWritesMarker` | source/Calamari/Log.cs:13-30 | From the initial state, where no mode is set, the first `Verbose`, `Info` or `Warn` writes its marker and then its message. |
| `Logger.RunMode` | source/Calamari/Log.cs:32-99 | After any sequence of calls, the mode is the mode of the last standard-output call. With no such call it is the starting mode, so errors never change it. |
| `Logger.RunStderr` | source/Calamari/Log.cs:91-99 | After any sequence of calls, standard error has gained exactly the error messages, in order. |
| `Logger.RunStdoutLength` | source/Calamari/Log.cs:25-84 | Standard output gains one `WriteLine` per message, plus one marker per change of mode. |
| `Logger.InterpretRun` | source/Calamari/Log.cs:25-84 | Read back by an orchestrator, the lines a run appends are exactly the messages of its standard-output calls, each in the mode it was written in. This assumes every message is a single line (no line feed, no carriage return) and none looks like a marker. |
| `Logger.ConvertServiceMessageValue` | source/Calamari/Log.cs:53-56 | A value is encoded so that Base64 decoding recovers its code-page bytes. The result never contains `"`. This one definition also stands for the identical copy in `Log.ServiceMessages` (Log.cs:108-111), which `PackageFound` and `DeltaVerification` call. |
| `Logger.SetVariableLineCarries` | source/Calamari/Log.cs:48 | The `setVariable` line reads back with the attributes `name` and `value`, in that order, holding the encodings of the name's and the value's bytes. |
| `Logger.CarriesExactText` | source/Calamari/Log.cs:48 | Two lines that carry the same name and the same encoded fields are the same line, so each `Carries` statement fixes the exact text written. |
| `Logger.CarriedLineIsSingleLine` | source/Calamari/Log.cs:119-123 | A service-message line with Base64 values is one line when its name and keys have no line break. |
| `Logger.SetOutputVariable` | source/Calamari/Log.cs:41-51 | Exactly one `setVariable` line is written in the `default` mode, preceded by a marker only if the mode changed. The line carries the encoded name and value. The variable is recorded only when a dictionary is supplied; without one nothing else changes. |
| `ServiceMessages.PackageFound` | source/Calamari/Log.cs:113-125 | Writes in the `verbose` mode: the marker if needed, then `##octopus[calamari-found-package]` exactly when an exact match exists, then the `foundPackage` line last. |
| `ServiceMessages.FoundPackageLineCarries` | source/Calamari/Log.cs:119-123 | The `foundPackage` line reads back with `id`, `version`, `hash` and `remotePath`, in that order, each the encoding of the corresponding argument. It is not a mode marker. |
| `ServiceMessages.FoundPackageMarkerIsSingleLine` | source/Calamari/Log.cs:117 | The found-package marker holds no line break. |
| `ServiceMessages.PackageFoundReadBack` | source/Calamari/Log.cs:113-125 | An orchestrator reads back, in the `verbose` mode, the found-package line exactly when an exact match exists, followed by the `foundPackage` line. |
| `ServiceMessages.DeltaVerification` | source/Calamari/Log.cs:127-133 | Writes one `deltaVerification` line in the `verbose` mode, preceded by a marker only if the mode changed. |
| `ServiceMessages.DeltaVerificationLineCarries` | source/Calamari/Log.cs:129-132 | The line carries `remotePath`, `hash` and `size`, in that order. The size is encoded from its invariant-culture decimal rendering. |
| `ZipPackageExtractor.Extensions` | source/Calamari/Integration/Packages/ZipPackageExtractor.cs:9 | The extractor handles exactly one extension, `.zip`. |
| `ZipPackageExtractor.GetFileNameIsLastSegment` | source/Calamari/Integration/Packages/ZipPackageExtractor.cs:40 | The file name is the longest suffix of the path without a separator: it ends the path, holds no separator, and a separator comes right before it unless it is the whole path. |
| `ZipPackageExtractor.GetDirectoryNameIsPrefix` | source/Calamari/Integration/Packages/ZipPackageExtractor.cs:46 | The directory part is empty exactly when the path has no separator. Otherwise it is a prefix of the path: either the root separator alone, or the text right before the separator that precedes the file name. |
| `ZipPackageExtractor.EqualsIgnoreCaseByLowering` | source/Calamari/Integration/Packages/ZipPackageExtractor.cs:41-44 | Two names are equal ignoring case exactly when their lower-case forms are equal. |
| `ZipPackageExtractor.WarningIsSingleLine` | source/Calamari/Integration/Packages/ZipPackageExtractor.cs:49 | The warning for a path without line breaks is itself a single line. |
| `ZipPackageExtractor.WarningText` | source/Calamari/Integration/Packages/ZipPackageExtractor.cs:49 | The warning quotes the entry path verbatim, right after its opening text. |
| `ZipPackageExtractor.WarnIfScriptInSubFolder` | source/Calamari/Integration/Packages/ZipPackageExtractor.cs:38-52 | A warning is produced exactly when the file name is one of the four lifecycle scripts, ignoring case, and the directory part is neither empty nor all white space. The warning quotes the path. |
| `ZipPackageExtractor.WarnsIffNestedScript` | source/Calamari/Integration/Packages/ZipPackageExtractor.cs:38-52 | A warning is produced exactly for the paths whose last separator is followed by a lifecycle script name and preceded by nothing or by non-blank text. This is stated without the path functions. |
| `ZipPackageExtractor.RootScriptNeverWarns` | source/Calamari/Integration/Packages/ZipPackageExtractor.cs:46-48 | A path without a directory part never draws a warning, whatever its name. |
| `ZipPackageExtractor.ProcessEvent` | source/Calamari/Integration/Packages/ZipPackageExtractor.cs:26-36 | A directory neither counts nor warns. A file adds one to the count. It warns exactly when warnings are not suppressed and it is a nested lifecycle script. |
| `ZipPackageExtractor.Extract` | source/Calamari/Integration/Packages/ZipPackageExtractor.cs:11-24 | The result is the number of file entries, whatever the suppression flag. The log gains exactly the script warnings in archive order, written with `Warn`. With suppression it gains nothing. |
| `ZipPackageExtractor.WarningsAtMostOnePerFile` | source/Calamari/Integration/Packages/ZipPackageExtractor.cs:26-36 | There are never more warnings than file entries. |
| `ZipPackageExtractor.WarningsQuoteNestedScripts` | source/Calamari/Integration/Packages/ZipPackageExtractor.cs:46-49 | Every warning is the text for the path of a file entry that is a nested lifecycle script. |
| `ZipPackageExtractor.ExtractWarningsReadBack` | source/Calamari/Integration/Packages/ZipPackageExtractor.cs:49 | When no entry path holds a line break, an orchestrator reads the logged warnings back as exactly the script warnings, each in the `warning` mode. Standard error is untouched. |

## Left out

- Zip I/O: opening the package file, reading the archive with Ionic.Zip and writing each entry (overwriting silently) belong to a foreign library and the file system. The archive is its sequence of entries.
- The `lock (Sync)` blocks and the console colour changes in `Error` are concurrency and console effects. Every logger call is one atomic transition.
- `Encoding.Default` is a platform-dependent code page. It is the parameter `codePage`.
- The `string.Format` overloads (`VerboseFormat`, `Info(format, args)`, `WarnFormat`, `ErrorFormat`) are thin wrappers over the .NET formatter. The model takes the already formatted message. `PackageFound`, `DeltaVerification` and the nested-script warning build their lines directly.
- The `VariableDictionary` output-variable call is external. It is modelled as setting `name` to `value` in an optional map.
- The two-argument `SetOutputVariable(name, value)` is `SetOutputVariable` with no dictionary (`None`).
- The `StdOut` and `StdErr` writers can be replaced; here they are the two line sequences of the state.
- Standard output is the sequence of `WriteLine` payloads. A message holding a line feed or a carriage return is one payload but several lines for a reader, and a later line of it could even be a mode marker. The read-back lemmas (`Logger.InterpretRun`, `ServiceMessages.PackageFoundReadBack`, `ZipPackageExtractor.ExtractWarningsReadBack`) therefore speak only of single-line messages. The service-message lines are proved to be single lines; the plain messages are not constrained.
- `ZipPackageExtractor.ExtractWarningsReadBack`: promises nothing for an archive with an entry path holding a line break. The warning quoting such a path spans several lines for a reader.
- Null strings: every string is non-null. In the source, `Verbose`, `Info` and `Warn` with `null` write an empty line, and `ConvertServiceMessageValue(null)` throws `ArgumentNullException` from `Encoding.GetBytes`. So `SetOutputVariable`, `PackageFound` and `DeltaVerification` with a null argument throw. `PackageFound` with an exact match has then already written `##octopus[calamari-found-package]` before the throw. None of these paths is modelled.
- `Logger.SetVariableLineCarries`: the lines are built with `ServiceMessageLine.Format`, not with the source's literal interpolated strings. The two produce the same text.
- `ZipPackageExtractor.WarnIfScriptInSubFolder`: `Path.GetFileName` and `Path.GetDirectoryName` are simplified. The separators are `/`, plus `\` on Windows. Drive letters, UNC roots, collapsing repeated separators and the exception for invalid path characters are not modelled.
- `ZipPackageExtractor.WarnIfScriptInSubFolder`: `OrdinalIgnoreCase` is modelled as ASCII case folding. Non-ASCII letters compare exactly.
- `ZipPackageExtractor.Extract`: the count is an unbounded natural. The 32-bit `int` of the source would overflow only past 2^31 − 1 entries.
