# discord-ipa-signer: a verified model of the bot's decision logic

This project models the parts of the discord-ipa-signer Discord bot that
make decisions. They are:

- the hand-written `.env` loader, which exists in three copies;
- the start-up loading of command and event modules;
- the `/certcheck` inspection of a decoded `.p12` container;
- the `/analyzeksign` file sniffer, with its PEM block extraction, hex
  preview and DER tag test;
- the hourly sweep of the `temp/` and `signed/` working directories;
- the bookkeeping of the signing service: where the `.app` bundle is
  found, what is read from `Info.plist`, where the profile and the signed
  archive go, and in which order the pipeline's steps run and fail;
- the `/sign` command's guards on the uploads, its session layout and its
  replies.

The decoders, archive and plist libraries, the network and Discord are
outside the model. Their results are parameters: a `Decoders` record, a
`World` whose steps fail or succeed, and an `External` record.

Modules:

| file | module | models |
|---|---|---|
| wrappers.dfy | `Wrappers` | `Option` and `Result` |
| text.dfy | `Text` | the JavaScript string and `path` primitives used by the bot |
| folds.dfy | `Folds` | two folds over sequences that several modules share |
| dotenv.dfy | `DotEnv` | the `.env` loader of deploy-commands.js, src/bot.js and start.js |
| bot.dfy | `Bot` | the command registry and event listeners of src/bot.js |
| certificate.dfy | `Certificate` | a decoded certificate, its validity window and attribute scans |
| certcheck.dfy | `CertCheck` | src/commands/certcheck.js |
| analyzeksign.dfy | `KsignAnalysis` | src/commands/analyzeksign.js |
| file_cleanup.dfy | `FileCleanupService` | src/utils/fileCleanup.js |
| signing_service.dfy | `SigningService` | src/services/signingService.js |
| sign_command.dfy | `SignCommand` | src/commands/sign.js |

State the source changes in place is modelled with classes:

- `Bot.Client` holds `client.commands` and the listeners.
- `FileCleanupService.Disk` holds the directory listings.
- `FileCleanupService.FileCleanup` is the cleanup service.
- `SigningService.Workspace` records the steps performed on the file system.

Loops of the source are methods with loop invariants. Each is proved
against a specification function, for example `DotEnv.LoadDotEnv`
against `ApplyLines`. The specification functions carry the lemmas.

Points where the code's behaviour is easy to misread:

- `/certcheck` takes the first certificate bag as the leaf. It does not
  look for the certificate whose private key is present.
- `findAppDirectory` takes the first `.app` entry of `Payload`. It does
  not check that there is exactly one.
- `signIpa` removes the extraction directory only on the success path. A
  failed run leaves it for the hourly sweep
  (`SigningService.ExtractionRemovedOnlyOnSuccess`).
- Decoding failures are not sorted into kinds. `/certcheck` reports
  every failure as `{ isValid: false, error }` carrying the thrown
  message.

## Model

| member | source | states |
|---|---|---|
| DotEnv.LoadDotEnv | deploy-commands.js:8-40 | With no file the environment is unchanged; otherwise the lines split on LF are applied in order, by the same loop src/bot.js:4-19 and start.js:7-25 run |
| DotEnv.ParseLine | deploy-commands.js:15-26 | What one line assigns: nothing for a blank line, a comment or a line without `=`, otherwise the trimmed texts before and after the first `=` when both are non-empty; its properties are the lemmas below |
| DotEnv.ParseTrimmed | deploy-commands.js:17-26 | The same decision taken on the already trimmed line |
| DotEnv.ApplyLines | deploy-commands.js:14-29 | The environment after the lines, each assignment written over the earlier value; `ApplyLinesLookup`, `ApplyLinesAppend` and `ApplyLinesKeepsKeys` state what it yields |
| DotEnv.ParseLineShape | deploy-commands.js:15-26 | Blank lines and lines without `=` assign nothing; an assignment has a non-empty, trimmed key and value, and the key holds no `=` and does not start with `#` |
| DotEnv.ParseAssignment | deploy-commands.js:19-26 | `KEY=VALUE` padded with any white space assigns VALUE verbatim to KEY, split at the first `=`, so the value may itself hold `=` and keeps its quotes |
| DotEnv.ParseLineInverse | deploy-commands.js:15-26 | Conversely, a line that assigns is exactly its key and its value, each padded with white space and joined by the line's first `=`, and the key holds no `=` |
| DotEnv.EmptyKeyAssignsNothing | deploy-commands.js:22-25 | A line whose key is blank, such as `=abc` or `  = abc`, assigns nothing |
| DotEnv.ParseTrimmedAssignment | deploy-commands.js:19-23 | The trimmed line `KEY<pad>=<pad>VALUE` is cut at its first `=` and both halves are trimmed |
| DotEnv.EmptyValueAssignsNothing | deploy-commands.js:25-26 | `KEY=` with an empty or blank value assigns nothing |
| DotEnv.CommentAssignsNothing | deploy-commands.js:17 | A line whose trimmed form starts with `#` assigns nothing, even when it holds `=` |
| DotEnv.CrlfLineSameAsLf | deploy-commands.js:12-15 | Splitting on LF leaves a CR at the end of a CRLF line, and trimming removes it |
| DotEnv.ApplyLinesLookup | deploy-commands.js:14-29 | After loading, a key holds the value of the last line that assigns it; a key no line assigns keeps its earlier value or stays absent |
| DotEnv.ApplyLinesAppend | deploy-commands.js:14-29 | Lines are applied strictly in order: loading two runs of lines is loading the first and then the second |
| DotEnv.ApplyLinesKeepsKeys | deploy-commands.js:26 | Loading never removes a variable |
| Text.IndexOfFirst | deploy-commands.js:19 | `indexOf('=')` finds the first `=`: an index holding `=` with none before it is the result |
| Text.IndexOf | deploy-commands.js:19-20 | `indexOf` is -1 exactly when the character is absent, and otherwise the index of its first occurrence |
| Text.TrimSpec | deploy-commands.js:15 | `trim` yields a text with no white space at either end, and the input is that text padded with white space |
| Text.Trim | deploy-commands.js:15 | `trim()`: the text without its leading and trailing white space, as `TrimSpec` states |
| Text.TrimPadded | deploy-commands.js:22-23 | Trimming removes exactly the white-space padding around a trimmed text |
| Text.TrimIdempotent | deploy-commands.js:15 | Trimming twice is trimming once |
| Text.TrimDropsCarriageReturn | deploy-commands.js:12-15 | A trailing CR is removed by `trim` |
| Text.TrimEmptyIff | deploy-commands.js:17 | A line trims to nothing exactly when it is all white space |
| Text.JoinSplit | deploy-commands.js:12 | Joining the parts of `split('\n')` with LF gives back the text |
| Text.SplitJoin | deploy-commands.js:12 | Splitting joined parts that hold no LF gives back the parts |
| Text.SplitPartsFree | deploy-commands.js:12 | No part of `split('\n')` holds an LF |
| Text.Split | deploy-commands.js:12 | `split('\n')` always yields at least one part; `JoinSplit`, `SplitJoin` and `SplitPartsFree` state which |
| Text.ContainsSpec | src/commands/analyzeksign.js:148 | `includes` holds exactly when the pattern occurs at some index |
| Text.EndsWithIff | src/bot.js:44 | `endsWith` holds exactly when the text is some stem followed by the suffix |
| Text.EndsWithOther | src/commands/sign.js:39 | `endsWith` compares characters exactly: a stem followed by a different suffix of the same length fails the test |
| Text.BasenameOfJoin | src/services/signingService.js:28 | `path.basename` of a path joined with a plain name is that name |
| Text.Basename | src/services/signingService.js:28 | `path.basename`: a suffix of the path holding no `/`, and either the whole path or preceded by a `/` |
| Bot.Client.constructor | src/bot.js:40 | A new client has no commands and no listeners |
| Bot.Client.LoadCommands | src/bot.js:43-50 | The command registry becomes the old one updated by each `.js` entry in listing order; the listeners are unchanged |
| Bot.Client.RegisterEvents | src/bot.js:53-64 | One listener is appended per `.js` event file, in listing order; the commands are unchanged |
| Bot.Registry | src/bot.js:46-50 | The registry after `set(command.data.name, command)` for each `.js` entry in listing order; `RegistryLookup` and `LastLoadedSpec` state its contents |
| Bot.Listeners | src/bot.js:56-64 | One listener per `.js` event file in listing order; `ListenerOfFile` and `ListenersCount` state which |
| Bot.RegistryLookup | src/bot.js:46-50 | A name is registered exactly when it was before or a `.js` file declares it; the last such file's command is kept |
| Bot.LastLoadedSpec | src/bot.js:46-50 | The command kept for a name is the last `.js` file's that declares it |
| Bot.NonJsFileIgnored | src/bot.js:44 | An entry not ending in `.js` changes nothing |
| Bot.ListenersSpec | src/bot.js:59-63 | A `.js` event file adds a listener registered with `once` exactly when its `once` flag is set, and `on` otherwise |
| Bot.ListenerOfFile | src/bot.js:56-64 | In closed form: there are as many listeners as `.js` event files, and the `.js` file with `n` `.js` files before it gives listener `n`, with its event name and its `once`/`on` mode |
| Bot.ListenersLength | src/bot.js:56-64 | There are exactly as many listeners as `.js` event files |
| Bot.ListenersCount | src/bot.js:54-64 | There are as many listeners as `.js` event files |
| Certificate.RawDaysRemaining | src/commands/certcheck.js:163 | The raw day count is the floor of the millisecond difference over 86 400 000 |
| Certificate.ReportedDays | src/commands/certcheck.js:190 | The reported count is 0 when less than a day is left, else the positive floor of the days left |
| Certificate.CommonNameOf | src/commands/certcheck.js:203-211 | The value of the first `commonName` attribute, or 'Unknown' when there is none |
| Certificate.LastValue | src/commands/certcheck.js:171-180 | The value of the last attribute with the name, or '' when there is none |
| Certificate.IsValidAt | src/commands/certcheck.js:164 | `now >= validFrom && now <= validUntil`: a window with both ends inside, as `CertCheck.WindowInclusive` states |
| CertCheck.ScanSubject | src/commands/certcheck.js:167-180 | Common name, organization and email are each the last matching subject attribute, or '' |
| CertCheck.AnalyzeCertificate | src/commands/certcheck.js:138-201 | A decoding error, an empty certificate list or a null leaf each yield a failed result with its message; otherwise the first bag's certificate is inspected: validity window, clamped days, subject scan, serial, first key bag and issuer common name |
| CertCheck.ValidityAndDays | src/commands/certcheck.js:163-164 | An expired certificate is invalid and reports 0 days; a not-yet-valid one is invalid; a valid one reports at most the whole days left, and 0 only in its last day |
| CertCheck.NotYetValidReportsDays | src/commands/certcheck.js:163-164 | Any certificate not valid yet, with a day or more to its expiry, is invalid and still reports the positive whole days to its expiry |
| CertCheck.WindowInclusive | src/commands/certcheck.js:164 | Both ends of the validity window are inside it |
| CertCheck.UploadNameIsCaseSensitive | src/commands/certcheck.js:27 | For every stem, `<stem>.p12` is accepted while `<stem>.P12` and `<stem>.p12.zip` are refused |
| CertCheck.AcceptsUploadIff | src/commands/certcheck.js:27 | An upload is accepted exactly when its name is some stem followed by `.p12` |
| CertCheck.AcceptsUpload | src/commands/certcheck.js:27 | The upload is accepted exactly when its name ends in `.p12`; `AcceptsUploadIff` and `UploadNameIsCaseSensitive` state what that admits |
| KsignAnalysis.Latin1 | src/commands/analyzeksign.js:145 | Each byte becomes the character of the same code |
| KsignAnalysis.Hex | src/commands/analyzeksign.js:142 | Two lower-case hex digits per byte |
| KsignAnalysis.UnhexHex | src/commands/analyzeksign.js:142 | The hex text decodes back to the bytes |
| KsignAnalysis.HexPreview | src/commands/analyzeksign.js:142 | The preview has 2 * min(100, size) hex digits |
| KsignAnalysis.HexPreviewDecodes | src/commands/analyzeksign.js:142 | The preview encodes exactly the first min(100, size) bytes |
| KsignAnalysis.SequenceTagIs0x30 | src/commands/analyzeksign.js:252 | 0x30 is the one identifier octet of a universal constructed SEQUENCE |
| KsignAnalysis.IsLikelyDerCertificate | src/commands/analyzeksign.js:246-253 | True exactly when there are at least ten bytes and the first is a SEQUENCE tag |
| KsignAnalysis.MatchAt | src/commands/analyzeksign.js:233 | A match of the PEM pattern starts with `-----BEGIN ` and ends with five dashes inside the text |
| KsignAnalysis.ScanMatches | src/commands/analyzeksign.js:233-234 | Every span the global search returns is a match at its start |
| KsignAnalysis.ScanOrdered | src/commands/analyzeksign.js:233-234 | The spans come left to right and do not overlap |
| KsignAnalysis.ScanCovers | src/commands/analyzeksign.js:233-234 | Every position where a match starts lies inside a returned span |
| KsignAnalysis.ExtractPemBlocks | src/commands/analyzeksign.js:232-235 | The texts of the pattern's global matches in order, or none; the lemmas below state what they are |
| KsignAnalysis.BlocksNeedBegin | src/commands/analyzeksign.js:232-235 | A block is found only in text holding a BEGIN line; otherwise the result is empty |
| KsignAnalysis.BlocksAreFramed | src/commands/analyzeksign.js:232-235 | Every block starts with `-----BEGIN ` and ends with five dashes |
| KsignAnalysis.PemBlockMatches | src/commands/analyzeksign.js:233 | A well-formed block matches from its start to its end |
| KsignAnalysis.MatchIsBlock | src/commands/analyzeksign.js:233 | Conversely, whatever the pattern matches is a BEGIN line with a non-empty `[A-Z ]` label, a body free of `-` and an END line with such a label |
| KsignAnalysis.MatchIsPemBlock | src/commands/analyzeksign.js:233 | Every match is some well-formed block |
| KsignAnalysis.BlocksAreWellFormed | src/commands/analyzeksign.js:232-235 | Every block found is some well-formed block |
| KsignAnalysis.SingleBlockFound | src/commands/analyzeksign.js:232-235 | A single well-formed block is found whole, even when its two labels differ |
| KsignAnalysis.SubjectNameAsWritten | src/commands/analyzeksign.js:163 | As written, every subject name reads 'Unknown' |
| KsignAnalysis.IssuerNameAsWritten | src/commands/analyzeksign.js:164 | As written, every issuer name reads 'Unknown' too |
| KsignAnalysis.GetCommonName | src/commands/analyzeksign.js:237-244 | On an attribute array, the first `commonName` value or 'Unknown'; on a distinguished-name object, which has no `length`, always 'Unknown' |
| KsignAnalysis.CommonNamesLost | src/commands/analyzeksign.js:163-164 | A certificate with subject "Alice" and issuer "CA" reads 'Unknown' for both as written, and "Alice" and "CA" once the attributes are passed |
| KsignAnalysis.SubjectName | src/commands/analyzeksign.js:237-244 | The intended subject name: 'Unknown' when no subject attribute is a `commonName`, otherwise the value of the first one |
| KsignAnalysis.IssuerName | src/commands/analyzeksign.js:237-244 | The intended issuer name: 'Unknown' when no issuer attribute is a `commonName`, otherwise the value of the first one |
| KsignAnalysis.SubjectNameIsFirstCommonName | src/commands/analyzeksign.js:237-244 | The name reported is the value of the first `commonName` attribute |
| KsignAnalysis.IssuerNameIsFirstCommonName | src/commands/analyzeksign.js:237-244 | The issuer name reported is the value of the first `commonName` attribute |
| KsignAnalysis.Summarize | src/commands/analyzeksign.js:162-169 | The record pushed for a certificate: the two names as read, the validity window, `isValid` with both ends inclusive at the given instant, and the serial |
| KsignAnalysis.SummaryNamesAsWritten | src/commands/analyzeksign.js:162-169 | As written, the record differs from the intended one only in both names reading 'Unknown' |
| KsignAnalysis.PemKeyIsLastKeyBlock | src/commands/analyzeksign.js:170-179 | There is a key exactly when some block is a key block, and it is the last one's, recorded as 'Encrypted/Unknown' when it does not parse |
| KsignAnalysis.PemKey | src/commands/analyzeksign.js:170-179 | The key the PEM blocks leave behind, as `PemKeyIsLastKeyBlock` states |
| KsignAnalysis.PemCertificates | src/commands/analyzeksign.js:154-169 | The summaries of the certificate blocks that parse; `PemCertificatesAppend` states their order |
| KsignAnalysis.PemCertificatesAppend | src/commands/analyzeksign.js:154-169 | Certificates are listed in block order |
| KsignAnalysis.PemCertificatesAsWritten | src/commands/analyzeksign.js:154-169 | As written, the PEM certificates are as many as intended and each differs only in both names reading 'Unknown' |
| KsignAnalysis.DerCertificates | src/commands/analyzeksign.js:206-227 | A likely DER file yields its certificate's record when it parses, and nothing otherwise |
| KsignAnalysis.FormatOf | src/commands/analyzeksign.js:139-207 | The format set by the last check that fires, PEM, ZIP, plist and DER in that order, or 'Binary' |
| KsignAnalysis.FileTypeOf | src/commands/analyzeksign.js:138-208 | The file type set the same way; the PEM check sets 'Certificate Bundle' or 'Private Key' only when it found one |
| KsignAnalysis.FileTypeIgnoresNaming | src/commands/analyzeksign.js:186-190 | The file type is the same whether the names are read as written or as intended |
| KsignAnalysis.ReadPemBlocks | src/commands/analyzeksign.js:154-184 | The loop lists the parsing certificate blocks in order and keeps the last key block's key |
| KsignAnalysis.AnalyzeKsign | src/commands/analyzeksign.js:131-229 | Size and hex preview from the bytes; format and file type are those of the last check that fires; PEM certificates followed by the DER certificate; the PEM key. With `AsWritten` the names are read as lines 163-164 and 217-218 read them, with `Intended` as corrected |
| KsignAnalysis.NothingFiresGivesDefault | src/commands/analyzeksign.js:136-143 | With no check firing the result is 'Binary', 'Unknown', no certificates |
| KsignAnalysis.PemWithPkReadsAsArchive | src/commands/analyzeksign.js:148-197 | A PEM text containing "PK" is reported as a ZIP archive |
| KsignAnalysis.CheckUpload | src/commands/analyzeksign.js:21-33 | The upload passes exactly when its name ends in `.ksign` and its size is at most the limit; the name is checked first |
| FileCleanupService.FileCleanup.constructor | src/utils/fileCleanup.js:6-10 | The service sweeps `<root>/temp` and `<root>/signed` with a one-hour limit |
| FileCleanupService.Sweep | src/utils/fileCleanup.js:35-43 | The entries a sweep at `now` keeps; `SweepKeeps`, `SweepBoundary`, `SweepIdempotent` and `SweepLater` state which |
| FileCleanupService.SweepDir | src/utils/fileCleanup.js:29-44 | The directories after sweeping one path, unchanged when the path does not exist, as `SweepDirFrame` states |
| FileCleanupService.Disk.Remove | src/utils/fileCleanup.js:40 | Removing an entry drops exactly that entry of that directory |
| FileCleanupService.FileCleanup.CleanupDirectory | src/utils/fileCleanup.js:29-44 | A missing directory is left alone; otherwise the directory keeps exactly its entries that are not stale at the one clock reading |
| FileCleanupService.FileCleanup.CleanupOldFiles | src/utils/fileCleanup.js:19-27 | The temp directory is swept first, then the signed one |
| FileCleanupService.SweepKeeps | src/utils/fileCleanup.js:39-40 | An entry survives exactly when it is at most `maxAge` old, with its change time unchanged |
| FileCleanupService.SweepBoundary | src/utils/fileCleanup.js:39 | The limit is strict: an entry exactly `maxAge` old survives, one a millisecond older is removed |
| FileCleanupService.SweepIdempotent | src/utils/fileCleanup.js:35-43 | A second sweep at the same instant removes nothing more |
| FileCleanupService.SweepLater | src/utils/fileCleanup.js:33-43 | A later sweep removes at least as much, and two sweeps are the later one |
| FileCleanupService.SweepDirFrame | src/utils/fileCleanup.js:30-43 | Sweeping one directory leaves every other directory as it was and does not create a missing one |
| FileCleanupService.WorkingDirsDistinct | src/utils/fileCleanup.js:7-8 | The temp and signed directories are different paths |
| SigningService.SignedIpaName | src/services/signingService.js:28 | The signed archive sits directly in the output directory, named `signed-` and the input's base name |
| SigningService.FirstApp | src/services/signingService.js:53-57 | The index of the first `.app` entry, or none when there is none |
| SigningService.FindAppDirectory | src/services/signingService.js:49-59 | Succeeds exactly when some entry ends in `.app`, with `Payload/<first such entry>`; otherwise fails with 'No .app directory found in IPA' |
| SigningService.FindAppIgnoresLater | src/services/signingService.js:53-56 | Entries after the first `.app` one do not matter |
| SigningService.ReadAppInfo | src/services/signingService.js:61-70 | Each field is present exactly when its key is, with that key's value |
| SigningService.ReadAppInfoOnlyThreeKeys | src/services/signingService.js:65-69 | No other key of `Info.plist` changes what is read |
| SigningService.Plan | src/services/signingService.js:11-32 | The steps of a run with no failures: three before the bundle is found, eight once it is |
| SigningService.Performed | src/services/signingService.js:10-36 | The steps `signIpa` performs: the plan up to and including its first failure, as `PerformedIsPrefix` states |
| SigningService.Outcome | src/services/signingService.js:9-38 | What `signIpa` resolves or rejects with: the lemmas below state when it succeeds and what every failure reads |
| SigningService.FirstFailure | src/services/signingService.js:10-36 | The index of the first failing step; every earlier step succeeds |
| SigningService.StopSpec | src/services/signingService.js:10-36 | A run stops with an error exactly when a step fails, and then at the first one |
| SigningService.UntilAppend | src/services/signingService.js:10-36 | Running two phases runs the second only when the first completed |
| SigningService.PlanPhases | src/services/signingService.js:11-32 | Unpacking, then listing `Payload`, then the bundle steps once a bundle is listed |
| SigningService.RunStopsUnpacking | src/services/signingService.js:11-15 | A failure while unpacking stops the run there with that error |
| SigningService.RunStopsLocating | src/services/signingService.js:18 | A failed listing or a missing bundle stops the run after the listing |
| SigningService.RunReachesBundle | src/services/signingService.js:18-34 | Once a bundle is found, the run's outcome is that of the bundle steps |
| SigningService.PerformedIsPrefix | src/services/signingService.js:10-36 | The steps performed are a prefix of the plan, and each one but the last succeeded |
| SigningService.SuccessIsSignedPath | src/services/signingService.js:28-34 | A successful run returns the signed archive's path |
| SigningService.FailuresArePrefixed | src/services/signingService.js:35-36 | Every failure is 'Signing failed: ' and either a performed step's error or the missing-bundle message |
| SigningService.RemovalIsLast | src/services/signingService.js:32 | Removing the extraction directory is the plan's last step and occurs nowhere else |
| SigningService.SuccessRemoves | src/services/signingService.js:32-34 | A successful run has removed the extraction directory |
| SigningService.RemovalMeansSuccess | src/services/signingService.js:32-34 | A run whose removal was reached and succeeded has succeeded |
| SigningService.ExtractionRemovedOnlyOnSuccess | src/services/signingService.js:32-36 | A run succeeds exactly when the removal of the extraction directory was performed and did not fail |
| SigningService.Workspace.constructor | src/services/signingService.js:9 | No step has been performed |
| SigningService.Workspace.Perform | src/services/signingService.js:12 | One step is appended to the log and its error returned |
| SigningService.Workspace.Unpack | src/services/signingService.js:11-15 | Creates the extraction directory, then extracts, stopping at the first error |
| SigningService.Workspace.FindApp | src/services/signingService.js:49-59 | Lists `Payload`, then picks the first `.app` entry; a failed listing is its error |
| SigningService.Workspace.ProcessBundle | src/services/signingService.js:19-32 | Reads `Info.plist`, copies the profile to `<app>/embedded.mobileprovision`, signs, packages and removes, stopping at the first error |
| SigningService.SignIpa | src/services/signingService.js:9-38 | The log grows by exactly the steps performed, and the result is the signed path or the prefixed first error |
| SignCommand.ValidateAccepts | src/commands/sign.js:39-63 | The uploads pass exactly when the three names carry their extensions and the IPA is within the limit |
| SignCommand.ValidateFirstFailure | src/commands/sign.js:39-63 | Each refusal is the first guard, in source order, that fails |
| SignCommand.SizeBoundary | src/commands/sign.js:58-59 | An IPA of exactly the limit passes, one byte more is refused, and the other two sizes do not matter |
| SignCommand.ValidateUploads | src/commands/sign.js:39-63 | The first guard that fails, if any, as `ValidateAccepts` and `ValidateFirstFailure` state |
| SignCommand.RejectionMessage | src/commands/sign.js:40-62 | The reply for each refusal, the too-large one quoting the limit in megabytes |
| SignCommand.SessionCall | src/commands/sign.js:76-93 | The call into the pipeline: the three files under `temp/<id>` and `signed/<id>` as output, as `SessionOutputPath` states |
| SignCommand.Execute | src/commands/sign.js:31-115 | The reply, session directories, pipeline call and clean-up of one `execute`; `SuccessDelivers`, `RefusedIffGuardFails`, `DeliveryMeansSigned`, `FailureReplies` and `CleanupOnlyOnDelivery` state each case |
| SignCommand.SuccessDelivers | src/commands/sign.js:66-108 | When the guards pass and every step succeeds, the session's two directories are made, the pipeline is called on its files, `signed-<upload name>` is sent back and the session is cleaned up |
| SignCommand.RefusedIffGuardFails | src/commands/sign.js:39-68 | The reply is a refusal exactly when a guard fails; uploads that pass the guards always get the session's two directories |
| SignCommand.ExtensionIsCaseSensitive | src/commands/sign.js:39 | An IPA named `<stem>.IPA` is refused as not an IPA, whatever its stem, its size and the other uploads |
| SignCommand.SessionOutputPath | src/commands/sign.js:76-93 | The pipeline writes `signed/<id>/signed-app.ipa`, whatever the upload was called |
| SignCommand.SessionDirsAreSweepEntries | src/commands/sign.js:67-68 | The session directories are distinct entries named by the session id in `temp/` and `signed/` |
| SignCommand.RefusalTouchesNothing | src/commands/sign.js:39-63 | A refused upload creates no directory, calls nothing and cleans nothing |
| SignCommand.CleanupOnlyOnDelivery | src/commands/sign.js:102-115 | The session is cleaned up exactly when the signed file was delivered |
| SignCommand.DeliveryMeansSigned | src/commands/sign.js:87-105 | A delivery means every guard passed, the pipeline ran on the session's files and succeeded, and the file is named `signed-<upload name>` |
| SignCommand.FailureReplies | src/commands/sign.js:110-115 | Every failure after the guards leaves the session behind and replies with the prefix and the failing step's message |
| SignCommand.SessionPipeline | src/commands/sign.js:87-93 | On the session's files, success is `signed/<id>/signed-app.ipa` and every failure reads '❌ Error signing IPA: Signing failed: ...' |

## Left out

- Decoding and cryptography: PKCS#12 decoding, ASN.1/DER parsing and PEM-to-certificate conversion are done by node-forge. They are the `Decoders` parameter and the `Result` input of `CertCheck.AnalyzeCertificate`. A certificate is an abstract record.
- The signing step itself: `signApp` in src/services/signingService.js is incomplete (it stops at line 89). It is one `SignApp` step whose outcome the `World` decides.
- ZIP extraction and packaging, and plist parsing: they are steps whose outcome the `World` decides. `Info.plist` is an already parsed map. The information `readAppInfo` returns is not used afterwards, so only its read can fail the run.
- Network and Discord: downloads, replies, embeds, `deferReply` and the progress messages are left out. So are command registration over REST and the static command tables of deploy-commands.js, the keep-alive server, the `ready` event, and the signal and rejection handlers of src/bot.js. Their failures in `/sign` are the `External` record.
- SignCommand.Execute: takes the pipeline's result as data; `SignCommand.SessionPipeline` states what `SigningService.Outcome` gives on the session's files.
- Formatting: `toFixed(2)` KB and MB texts and `toLocaleDateString` dates are left out. Dates stay timestamps. The file size is a byte count. The megabyte figure of the too-large message is a parameter of `RejectionMessage`.
- KsignAnalysis.KeyOf: the key type depends on the text of the parsed key object, which is the decoder's `description` string. With node-forge, `privateKeyFromPem` returns a plain object whose `toString()` is "[object Object]", so as written src/commands/analyzeksign.js:174 reports 'Unknown' for every key that parses and never 'RSA'. The model reports 'RSA' for a decoder whose description mentions RSA, so it is faithful to the code only for the description node-forge actually gives.
- SignCommand.MaxSizeOf: does not model the coercion of the string-valued `MAX_FILE_SIZE`. The setting is taken as an already converted integer, and `None` stands for unset or empty.
- Text.Basename: does not strip a trailing `/` first, as `path.basename` does: for `a/b/` the source gives `b` and the model gives the empty text. The paths src/services/signingService.js:28 passes are built by `PathJoin` with a plain file name and never end in `/`.
- Strings: a `string` is a sequence of Unicode scalar values, not of UTF-16 code units as in JavaScript. Lengths and indices of text outside the Basic Multilingual Plane differ; the texts the model inspects (suffixes, `=`, PEM markers) are ASCII.
- Text.PathJoin: is concatenation with `/`; `path.join`'s normalisation of `..` and repeated separators is left out, and the directories are given as roots.
- Clocks and identifiers: `Date.now()` and `new Date()` are parameters. A sweep takes one reading, as src/utils/fileCleanup.js:33 does. `analyzeKsign` calls `new Date()` once per certificate (src/commands/analyzeksign.js:158 and 212); the model takes one reading `now` for the whole analysis, so two certificates of one file are never judged at different instants. uuid generation is the `sessionId` parameter.
- Reading `.env`: `readFileSync` throwing after `existsSync` succeeded (deploy-commands.js:9-11, src/bot.js:5-6, start.js:8-9) is left out. A file that exists is taken to be readable; the throw would abort start-up before anything else is loaded.
- Broken modules: a `require` that fails throws at src/bot.js:48 for a command module and at src/bot.js:58 for an event module, and a command module without `data` throws at src/bot.js:49; each aborts start-up. A command module with `data` but no `data.name` does not throw: it is stored under the key `undefined`, and each later nameless module replaces it. The model's command modules always carry a name string, so `Bot.Client.LoadCommands` and `Bot.Client.RegisterEvents` never fail and no entry sits under `undefined`.
- Scheduling: the node-cron schedule of `startCleanup` is left out.
- Cleanup errors: `cleanupOldFiles` catches and logs any error. A failing `stat` or `remove` is left out: every entry's change time is known and every removal succeeds.
- Helpers: `cleanupSession` (two removals) and `hasPermission` (always true) of src/utils/security.js are not part of this model. `/sign` records only whether it cleaned up.
- Certificates in `/certcheck`: the serial number is the decoder's string. The public key is not read.

## Findings

| source | as written | input that shows it | evidently intended | confidence | as-written member | corrected member |
|---|---|---|---|---|---|---|
| src/commands/analyzeksign.js:163-164 (and 217-218) | `getCommonName(cert.subject)` and `getCommonName(cert.issuer)` are handed the distinguished-name objects, which have no `length`, so the loop never runs and both names are always 'Unknown' | a certificate whose subject has the single attribute commonName = "Alice" and whose issuer has commonName = "CA" | `getCommonName(cert.subject.attributes)` and `getCommonName(cert.issuer.attributes)`, as src/commands/certcheck.js:171 and 204 do, giving "Alice" and "CA" | high; not executed | KsignAnalysis.CommonNamesLost | KsignAnalysis.SubjectNameIsFirstCommonName |
