/** The `/sign` command (src/commands/sign.js): the ordered guards on the
    three uploads, the per-session directory layout, the call into the
    signing pipeline, and what the user is sent back. Discord itself, the
    downloads and the file reads are outside the model: their failures are
    given by an `External` record. */
module SignCommand {
  import opened Wrappers
  import opened Text
  import SigningService

  /** `50 * 1024 * 1024`: the IPA size limit when `MAX_FILE_SIZE` is not set. */
  const DefaultMaxSize: int := 52_428_800

  /** `process.env.MAX_FILE_SIZE || 50 * 1024 * 1024`, with the setting
      already read as a number (`None` when it is unset or empty). */
  function MaxSizeOf(configured: Option<int>): int {
    match configured
    case None => DefaultMaxSize
    case Some(size) => size
  }

  /** An uploaded file, as far as the guards look at it. */
  datatype Attachment = Attachment(name: string, size: int)

  /** Why the uploads were refused, in the order the guards run. */
  datatype Rejection = NotIpa | NotP12 | NotMobileProvision | IpaTooLarge

  const NotIpaMessage: string := "❌ Please provide a valid .ipa file."
  const NotP12Message: string := "❌ Please provide a valid .p12 file."
  const NotMobileProvisionMessage: string := "❌ Please provide a valid .mobileprovision file."
  const TooLargePrefix: string := "❌ IPA file is too large. Maximum size is "
  const ErrorPrefix: string := "❌ Error signing IPA: "

  /** The reply for a refusal; `maxSizeText` is the limit in megabytes as
      JavaScript prints it. */
  function RejectionMessage(r: Rejection, maxSizeText: string): string {
    match r
    case NotIpa => NotIpaMessage
    case NotP12 => NotP12Message
    case NotMobileProvision => NotMobileProvisionMessage
    case IpaTooLarge => TooLargePrefix + maxSizeText + "MB."
  }

  /** The guards of `execute`, run in order; the first that fails decides. */
  function ValidateUploads(ipa: Attachment, p12: Attachment, provision: Attachment, maxSize: int): Option<Rejection> {
    if !EndsWith(ipa.name, ".ipa") then Some(NotIpa)
    else if !EndsWith(p12.name, ".p12") then Some(NotP12)
    else if !EndsWith(provision.name, ".mobileprovision") then Some(NotMobileProvision)
    else if ipa.size > maxSize then Some(IpaTooLarge)
    else None
  }

  /** The uploads are accepted exactly when all three names carry their
      extension and the IPA is within the limit. */
  lemma ValidateAccepts(ipa: Attachment, p12: Attachment, provision: Attachment, maxSize: int)
    ensures ValidateUploads(ipa, p12, provision, maxSize).None?
      <==> EndsWith(ipa.name, ".ipa") && EndsWith(p12.name, ".p12")
           && EndsWith(provision.name, ".mobileprovision") && ipa.size <= maxSize
  {
  }

  /** Each refusal names the first guard, in source order, that fails:
      every earlier guard passed. */
  lemma ValidateFirstFailure(ipa: Attachment, p12: Attachment, provision: Attachment, maxSize: int)
    ensures var r := ValidateUploads(ipa, p12, provision, maxSize);
      (r == Some(NotIpa) <==> !EndsWith(ipa.name, ".ipa"))
      && (r == Some(NotP12) <==> EndsWith(ipa.name, ".ipa") && !EndsWith(p12.name, ".p12"))
      && (r == Some(NotMobileProvision) <==>
            EndsWith(ipa.name, ".ipa") && EndsWith(p12.name, ".p12") && !EndsWith(provision.name, ".mobileprovision"))
      && (r == Some(IpaTooLarge) <==>
            EndsWith(ipa.name, ".ipa") && EndsWith(p12.name, ".p12") && EndsWith(provision.name, ".mobileprovision")
            && ipa.size > maxSize)
  {
  }

  /** Only the IPA's size is bounded, and the bound is inclusive: an IPA of
      exactly `maxSize` bytes is accepted, one byte more is refused. */
  lemma SizeBoundary(ipa: Attachment, p12: Attachment, provision: Attachment, maxSize: int)
    requires EndsWith(ipa.name, ".ipa") && EndsWith(p12.name, ".p12") && EndsWith(provision.name, ".mobileprovision")
    ensures ValidateUploads(Attachment(ipa.name, maxSize), p12, provision, maxSize).None?
    ensures ValidateUploads(Attachment(ipa.name, maxSize + 1), p12, provision, maxSize) == Some(IpaTooLarge)
    ensures forall p12Size: int, provisionSize: int ::
      ValidateUploads(ipa, Attachment(p12.name, p12Size), Attachment(provision.name, provisionSize), maxSize)
        == ValidateUploads(ipa, p12, provision, maxSize)
  {
  }

  /** The extension tests are case-sensitive: an IPA named `<stem>.IPA` is
      refused, whatever its stem, its size and the other two uploads. */
  lemma ExtensionIsCaseSensitive(stem: string, size: int, p12: Attachment, provision: Attachment, maxSize: int)
    ensures ValidateUploads(Attachment(stem + ".IPA", size), p12, provision, maxSize) == Some(NotIpa)
  {
    EndsWithOther(stem, ".ipa", ".IPA");
  }

  // ----------------------------------------------------------- sessions

  /** `path.join(<root>, 'temp', sessionId)` */
  function SessionTempDir(root: string, sessionId: string): string {
    PathJoin(PathJoin(root, "temp"), sessionId)
  }

  /** `path.join(<root>, 'signed', sessionId)` */
  function SessionSignedDir(root: string, sessionId: string): string {
    PathJoin(PathJoin(root, "signed"), sessionId)
  }

  /** The arguments `execute` hands to `signIpa`. */
  datatype SignCall = SignCall(ipaPath: string, p12Path: string, provisionPath: string,
                               password: string, outputDir: string)

  /** The session's inputs land at fixed names in its temp directory and
      the signed archive goes to its signed directory. */
  function SessionCall(root: string, sessionId: string, password: string): SignCall {
    var temp := SessionTempDir(root, sessionId);
    SignCall(PathJoin(temp, "app.ipa"), PathJoin(temp, "cert.p12"), PathJoin(temp, "embedded.mobileprovision"),
             password, SessionSignedDir(root, sessionId))
  }

  /** Whatever the user called the upload, the pipeline writes
      `signed/<id>/signed-app.ipa`. */
  lemma SessionOutputPath(root: string, sessionId: string, password: string)
    ensures var call := SessionCall(root, sessionId, password);
      SigningService.SignedIpaPath(call.outputDir, call.ipaPath)
        == PathJoin(SessionSignedDir(root, sessionId), "signed-app.ipa")
  {
    BasenameOfJoin(SessionTempDir(root, sessionId), "app.ipa");
    assert "signed-" + "app.ipa" == "signed-app.ipa";
  }

  /** A session's directories are top-level entries named by the session
      id in the two directories the hourly sweep looks at. */
  lemma SessionDirsAreSweepEntries(root: string, sessionId: string)
    requires '/' !in sessionId
    ensures Basename(SessionTempDir(root, sessionId)) == sessionId
    ensures Basename(SessionSignedDir(root, sessionId)) == sessionId
    ensures SessionTempDir(root, sessionId) != SessionSignedDir(root, sessionId)
  {
    BasenameOfJoin(PathJoin(root, "temp"), sessionId);
    BasenameOfJoin(PathJoin(root, "signed"), sessionId);
    assert SessionTempDir(root, sessionId)[|root| + 1] == 't';
    assert SessionSignedDir(root, sessionId)[|root| + 1] == 's';
  }

  // ---------------------------------------------------------------- run

  /** What the user sees in the end. */
  datatype Reply = Refused(rejection: Rejection) | Failed(message: string) | Delivered(fileName: string)

  /** The outcomes of the steps around the command: creating the session
      directories, the three downloads, the pipeline's result (the signed
      path or the error message, see `SigningService.Outcome`), and reading
      and sending the signed file. */
  datatype External = External(setupError: Option<string>, downloadError: Option<string>,
                               signed: Result<string, string>, deliverError: Option<string>)

  /** The observable effects of one `execute`: the reply, the session
      directories it asked for, the call into the pipeline and whether the
      session was cleaned up. */
  datatype Run = Run(reply: Reply, sessionDirs: seq<string>, signCall: Option<SignCall>, cleanedUp: bool)

  /** `execute(interaction)` for the uploads `ipa`, `p12`, `provision`
      and the password, in the session `sessionId`. */
  function Execute(ipa: Attachment, p12: Attachment, provision: Attachment, password: string,
                   maxSize: int, root: string, sessionId: string, ext: External): Run
  {
    match ValidateUploads(ipa, p12, provision, maxSize)
    case Some(r) => Run(Refused(r), [], None, false)
    case None =>
      var dirs := [SessionTempDir(root, sessionId), SessionSignedDir(root, sessionId)];
      if ext.setupError.Some? then Run(Failed(ErrorPrefix + ext.setupError.value), dirs, None, false)
      else if ext.downloadError.Some? then Run(Failed(ErrorPrefix + ext.downloadError.value), dirs, None, false)
      else
        var call := SessionCall(root, sessionId, password);
        match ext.signed
        case Err(msg) => Run(Failed(ErrorPrefix + msg), dirs, Some(call), false)
        case Ok(_) =>
          if ext.deliverError.Some? then Run(Failed(ErrorPrefix + ext.deliverError.value), dirs, Some(call), false)
          else Run(Delivered("signed-" + ipa.name), dirs, Some(call), true)
  }

  /** A refused upload creates no session, calls nothing and cleans
      nothing; its reply is the first failing guard. */
  lemma RefusalTouchesNothing(ipa: Attachment, p12: Attachment, provision: Attachment, password: string,
                              maxSize: int, root: string, sessionId: string, ext: External)
    requires ValidateUploads(ipa, p12, provision, maxSize).Some?
    ensures var run := Execute(ipa, p12, provision, password, maxSize, root, sessionId, ext);
      run.reply == Refused(ValidateUploads(ipa, p12, provision, maxSize).value)
      && run.sessionDirs == [] && run.signCall.None? && !run.cleanedUp
  {
  }

  /** The session is cleaned up exactly when the signed file was
      delivered; every failure leaves it for the hourly sweep. */
  lemma CleanupOnlyOnDelivery(ipa: Attachment, p12: Attachment, provision: Attachment, password: string,
                              maxSize: int, root: string, sessionId: string, ext: External)
    ensures var run := Execute(ipa, p12, provision, password, maxSize, root, sessionId, ext);
      run.cleanedUp <==> run.reply.Delivered?
  {
  }

  /** A delivery means the guards passed, the pipeline was called on the
      session's files and succeeded, and the file sent back is named after
      the user's upload. */
  lemma DeliveryMeansSigned(ipa: Attachment, p12: Attachment, provision: Attachment, password: string,
                            maxSize: int, root: string, sessionId: string, ext: External)
    ensures var run := Execute(ipa, p12, provision, password, maxSize, root, sessionId, ext);
      run.reply.Delivered? ==>
        (ValidateUploads(ipa, p12, provision, maxSize).None?
         && run.signCall == Some(SessionCall(root, sessionId, password))
         && ext.signed.Ok? && ext.setupError.None? && ext.downloadError.None? && ext.deliverError.None?
         && run.reply.fileName == "signed-" + ipa.name)
  {
  }

  /** When the guards pass and every step around the pipeline succeeds, the
      session's directories are made, the pipeline is called on its files,
      the signed file goes back as `signed-<upload name>` and the session is
      cleaned up. */
  lemma SuccessDelivers(ipa: Attachment, p12: Attachment, provision: Attachment, password: string,
                        maxSize: int, root: string, sessionId: string, ext: External)
    ensures (ValidateUploads(ipa, p12, provision, maxSize).None? && ext.setupError.None?
             && ext.downloadError.None? && ext.signed.Ok? && ext.deliverError.None?) ==>
        Execute(ipa, p12, provision, password, maxSize, root, sessionId, ext)
          == Run(Delivered("signed-" + ipa.name),
                 [SessionTempDir(root, sessionId), SessionSignedDir(root, sessionId)],
                 Some(SessionCall(root, sessionId, password)), true)
  {
  }

  /** The reply is a refusal exactly when a guard fails: uploads that pass
      the guards always get a session and a call into the pipeline or a
      failure reply. */
  lemma RefusedIffGuardFails(ipa: Attachment, p12: Attachment, provision: Attachment, password: string,
                             maxSize: int, root: string, sessionId: string, ext: External)
    ensures var run := Execute(ipa, p12, provision, password, maxSize, root, sessionId, ext);
      run.reply.Refused? <==> ValidateUploads(ipa, p12, provision, maxSize).Some?
    ensures var run := Execute(ipa, p12, provision, password, maxSize, root, sessionId, ext);
      ValidateUploads(ipa, p12, provision, maxSize).None? ==>
        run.sessionDirs == [SessionTempDir(root, sessionId), SessionSignedDir(root, sessionId)]
  {
  }

  /** Every failure after the guards leaves the session's directories
      behind and is reported with the same prefix and the failing step's
      message. */
  lemma FailureReplies(ipa: Attachment, p12: Attachment, provision: Attachment, password: string,
                       maxSize: int, root: string, sessionId: string, ext: External)
    ensures var run := Execute(ipa, p12, provision, password, maxSize, root, sessionId, ext);
      run.reply.Failed? ==>
        (|run.sessionDirs| == 2 && !run.cleanedUp
         && exists e :: run.reply.message == ErrorPrefix + e
              && (ext.setupError == Some(e) || ext.downloadError == Some(e)
                  || ext.signed == Err(e) || ext.deliverError == Some(e)))
  {
    var run := Execute(ipa, p12, provision, password, maxSize, root, sessionId, ext);
    if run.reply.Failed? {
      var e := run.reply.message[|ErrorPrefix|..];
      assert run.reply.message == ErrorPrefix + e;
    }
  }

  /** When the pipeline runs on the session's files, a successful run
      signed `signed/<id>/signed-app.ipa`, whatever the upload was called,
      and a failed one reports `Signing failed: ...`, so the user reads
      `❌ Error signing IPA: Signing failed: ...`. */
  lemma SessionPipeline(root: string, sessionId: string, password: string, world: SigningService.World)
    ensures var call := SessionCall(root, sessionId, password);
      var outcome := SigningService.Outcome(call.ipaPath, call.p12Path, call.provisionPath, password, call.outputDir, world);
      (outcome.Ok? ==> outcome.value == PathJoin(SessionSignedDir(root, sessionId), "signed-app.ipa"))
      && (outcome.Err? ==> StartsWith(ErrorPrefix + outcome.error, ErrorPrefix + SigningService.FailurePrefix))
  {
    var call := SessionCall(root, sessionId, password);
    SigningService.FailuresArePrefixed(call.ipaPath, call.p12Path, call.provisionPath, password, call.outputDir, world);
    SigningService.SuccessIsSignedPath(call.ipaPath, call.p12Path, call.provisionPath, password, call.outputDir, world);
    SessionOutputPath(root, sessionId, password);
  }
}
