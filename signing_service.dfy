/** The bookkeeping of src/services/signingService.js: where the app bundle
    is found, what is read from its `Info.plist`, where the provisioning
    profile and the signed archive go, and in which order the pipeline's
    file-system steps run and fail. The archive, plist and signing
    libraries are outside the model: each step's success or error message
    is given by a `World`. */
module SigningService {
  import opened Wrappers
  import opened Text

  /** `new Error(`Signing failed: ${error.message}`)` */
  const FailurePrefix: string := "Signing failed: "
  const NoAppMessage: string := "No .app directory found in IPA"

  // ---------------------------------------------------------------- paths

  /** `path.join(outputDir, 'extracted')` */
  function ExtractDir(outputDir: string): string {
    PathJoin(outputDir, "extracted")
  }

  /** `path.join(extractDir, 'Payload')` */
  function PayloadDir(extractDir: string): string {
    PathJoin(extractDir, "Payload")
  }

  /** `path.join(appPath, 'embedded.mobileprovision')`: the profile always
      lands at this fixed name, replacing whatever was there. */
  function ProfileDestination(appPath: string): string {
    PathJoin(appPath, "embedded.mobileprovision")
  }

  /** `path.join(outputDir, `signed-${path.basename(ipaPath)}`)` */
  function SignedIpaPath(outputDir: string, ipaPath: string): string {
    PathJoin(outputDir, "signed-" + Basename(ipaPath))
  }

  /** The signed archive sits directly in the output directory and is named
      after the input archive with a `signed-` prefix. */
  lemma SignedIpaName(outputDir: string, ipaPath: string)
    ensures Basename(SignedIpaPath(outputDir, ipaPath)) == "signed-" + Basename(ipaPath)
    ensures StartsWith(SignedIpaPath(outputDir, ipaPath), outputDir + "/")
  {
    var b := Basename(ipaPath);
    assert '/' !in "signed-" + b;
    BasenameOfJoin(outputDir, "signed-" + Basename(ipaPath));
  }

  // ------------------------------------------------------- the .app bundle

  predicate IsAppBundle(item: string) {
    EndsWith(item, ".app")
  }

  /** The first entry of `items` that ends in `.app`, if any. */
  function FirstApp(items: seq<string>): (r: Option<nat>)
    ensures r.Some? ==> r.value < |items| && IsAppBundle(items[r.value])
    ensures r.Some? ==> forall j :: 0 <= j < r.value ==> !IsAppBundle(items[j])
    ensures r.None? ==> forall j :: 0 <= j < |items| ==> !IsAppBundle(items[j])
  {
    if |items| == 0 then None
    else if IsAppBundle(items[0]) then Some(0)
    else match FirstApp(items[1..])
      case None => None
      case Some(k) => Some(k + 1)
  }

  /** `findAppDirectory(extractDir)` over the listing `items` of the
      `Payload` directory: the first `.app` entry wins, without any check
      that it is the only one. */
  function FindAppDirectory(extractDir: string, items: seq<string>): (r: Result<string, string>)
    ensures r.Ok? <==> exists i :: 0 <= i < |items| && IsAppBundle(items[i])
    ensures r.Err? ==> r.error == NoAppMessage
    ensures r.Ok? ==> exists i :: 0 <= i < |items| && IsAppBundle(items[i])
                        && (forall j :: 0 <= j < i ==> !IsAppBundle(items[j]))
                        && r.value == PathJoin(PayloadDir(extractDir), items[i])
  {
    match FirstApp(items)
    case None => Err(NoAppMessage)
    case Some(i) => Ok(PathJoin(PayloadDir(extractDir), items[i]))
  }

  /** Later entries do not matter once a `.app` entry has been listed: a
      second bundle is silently ignored. */
  lemma {:induction false} FirstAppIgnoresLater(items: seq<string>, more: seq<string>)
    requires FirstApp(items).Some?
    ensures FirstApp(items + more) == FirstApp(items)
  {
    if !IsAppBundle(items[0]) {
      assert (items + more)[1..] == items[1..] + more;
      FirstAppIgnoresLater(items[1..], more);
    }
  }

  lemma FindAppIgnoresLater(extractDir: string, items: seq<string>, more: seq<string>)
    requires exists i :: 0 <= i < |items| && IsAppBundle(items[i])
    ensures FindAppDirectory(extractDir, items + more) == FindAppDirectory(extractDir, items)
  {
    FirstAppIgnoresLater(items, more);
    var i := FirstApp(items).value;
    assert (items + more)[i] == items[i];
  }

  // ---------------------------------------------------------- Info.plist

  /** The three fields read from the parsed property list; a missing key is
      JavaScript's `undefined`, here `None`. */
  datatype AppInfo<V> = AppInfo(bundleId: Option<V>, bundleName: Option<V>, executable: Option<V>)

  function Lookup<V>(plist: map<string, V>, key: string): Option<V> {
    if key in plist then Some(plist[key]) else None
  }

  /** `readAppInfo`'s projection of the parsed `Info.plist`. */
  function ReadAppInfo<V>(plist: map<string, V>): (info: AppInfo<V>)
    ensures info.bundleId.Some? <==> "CFBundleIdentifier" in plist
    ensures info.bundleId.Some? ==> info.bundleId.value == plist["CFBundleIdentifier"]
    ensures info.bundleName.Some? <==> "CFBundleName" in plist
    ensures info.bundleName.Some? ==> info.bundleName.value == plist["CFBundleName"]
    ensures info.executable.Some? <==> "CFBundleExecutable" in plist
    ensures info.executable.Some? ==> info.executable.value == plist["CFBundleExecutable"]
  {
    AppInfo(Lookup(plist, "CFBundleIdentifier"), Lookup(plist, "CFBundleName"),
            Lookup(plist, "CFBundleExecutable"))
  }

  /** Only the three keys matter: any other entry of the property list can
      change without changing what is read. */
  lemma ReadAppInfoOnlyThreeKeys<V>(plist: map<string, V>, key: string, value: V)
    requires key !in {"CFBundleIdentifier", "CFBundleName", "CFBundleExecutable"}
    ensures ReadAppInfo(plist[key := value]) == ReadAppInfo(plist)
    ensures ReadAppInfo(plist - {key}) == ReadAppInfo(plist)
  {
  }

  // ------------------------------------------------------------- the run

  /** One file-system or library step of `signIpa`. */
  datatype Step =
    | EnsureDir(dir: string)                              // fs.ensureDir
    | Extract(ipaPath: string, dir: string)               // extractIpa
    | ListDir(dir: string)                                // fs.readdir of Payload
    | ReadInfo(plistPath: string)                         // read and parse Info.plist
    | CopyProfile(source: string, destination: string)    // fs.copyFile
    | SignApp(appPath: string, p12Path: string, password: string)
    | Package(dir: string, ipaPath: string)               // createIpa
    | RemoveDir(dir: string)                              // fs.remove

  /** What the outside world does: the error a step fails with, if it
      fails, and what `Payload` lists once the archive is extracted. */
  datatype World = World(failure: Step -> Option<string>, payload: seq<string>)

  /** The steps on a located bundle: read its information, replace its
      profile, sign it, package the extraction directory and remove it. */
  function BundleSteps(ipaPath: string, p12Path: string, provisionPath: string, password: string,
                       outputDir: string, appPath: string): seq<Step>
  {
    var dir := ExtractDir(outputDir);
    [ReadInfo(PathJoin(appPath, "Info.plist")), CopyProfile(provisionPath, ProfileDestination(appPath)),
     SignApp(appPath, p12Path, password), Package(dir, SignedIpaPath(outputDir, ipaPath)), RemoveDir(dir)]
  }

  /** The steps a run performs when none of them fails: preparing,
      extracting and listing `Payload`, then, once a bundle is found, the
      steps on that bundle. */
  function Plan(ipaPath: string, p12Path: string, provisionPath: string, password: string,
                outputDir: string, world: World): (plan: seq<Step>)
    ensures |plan| == 3 || |plan| == 8
  {
    var dir := ExtractDir(outputDir);
    var front := [EnsureDir(dir), Extract(ipaPath, dir), ListDir(PayloadDir(dir))];
    match FindAppDirectory(dir, world.payload)
    case Err(_) => front
    case Ok(app) => front + BundleSteps(ipaPath, p12Path, provisionPath, password, outputDir, app)
  }

  /** The index of the first step that fails, or `|steps|` when none does. */
  function FirstFailure(steps: seq<Step>, failure: Step -> Option<string>): (k: nat)
    ensures k <= |steps|
    ensures forall j :: 0 <= j < k ==> failure(steps[j]).None?
    ensures k < |steps| ==> failure(steps[k]).Some?
  {
    if |steps| == 0 then 0
    else if failure(steps[0]).Some? then 0
    else 1 + FirstFailure(steps[1..], failure)
  }

  /** The first failure is the unique index before which everything
      succeeds and at which the step fails. */
  lemma {:induction false} FirstFailureAt(steps: seq<Step>, failure: Step -> Option<string>, k: nat)
    requires k <= |steps|
    requires forall j :: 0 <= j < k ==> failure(steps[j]).None?
    requires k < |steps| ==> failure(steps[k]).Some?
    ensures FirstFailure(steps, failure) == k
  {
    if |steps| > 0 && k > 0 {
      FirstFailureAt(steps[1..], failure, k - 1);
    }
  }

  /** The steps performed when `steps` run in order and the first failure
      stops the run. */
  function Until(steps: seq<Step>, failure: Step -> Option<string>): seq<Step> {
    var k := FirstFailure(steps, failure);
    if k < |steps| then steps[..k + 1] else steps
  }

  /** The error that stops the run, if any. */
  function Stop(steps: seq<Step>, failure: Step -> Option<string>): Option<string> {
    var k := FirstFailure(steps, failure);
    if k < |steps| then failure(steps[k]) else None
  }

  /** A run of `steps` stops with an error exactly when one of its steps
      fails, and then it stops at the first of them. */
  lemma StopSpec(steps: seq<Step>, failure: Step -> Option<string>)
    ensures Stop(steps, failure).None? <==> forall j :: 0 <= j < |steps| ==> failure(steps[j]).None?
    ensures Stop(steps, failure).None? ==> Until(steps, failure) == steps
    ensures Stop(steps, failure).Some? ==>
      exists k :: 0 <= k < |steps| && (forall j :: 0 <= j < k ==> failure(steps[j]).None?)
                  && Stop(steps, failure) == failure(steps[k]) && Until(steps, failure) == steps[..k + 1]
  {
    var k := FirstFailure(steps, failure);
    if k < |steps| {
      assert Stop(steps, failure) == failure(steps[k]) && Until(steps, failure) == steps[..k + 1];
    }
  }

  /** Running `a + b` runs `a` and, if nothing in `a` failed, then `b`. */
  lemma UntilAppend(a: seq<Step>, b: seq<Step>, failure: Step -> Option<string>)
    ensures Stop(a, failure).Some? ==> Until(a + b, failure) == Until(a, failure) && Stop(a + b, failure) == Stop(a, failure)
    ensures Stop(a, failure).None? ==> Until(a + b, failure) == a + Until(b, failure) && Stop(a + b, failure) == Stop(b, failure)
  {
    var k := FirstFailure(a, failure);
    if k < |a| {
      FirstFailureAt(a + b, failure, k);
      assert (a + b)[..k + 1] == a[..k + 1];
    } else {
      var m := FirstFailure(b, failure);
      FirstFailureAt(a + b, failure, |a| + m);
      if m < |b| {
        assert (a + b)[..|a| + m + 1] == a + b[..m + 1];
      }
    }
  }

  /** A run that fails at step `k` has performed exactly the first `k + 1`
      steps and stops with that step's error. */
  lemma StopsAt(steps: seq<Step>, failure: Step -> Option<string>, k: nat)
    requires k < |steps|
    requires forall j :: 0 <= j < k ==> failure(steps[j]).None?
    requires failure(steps[k]).Some?
    ensures Until(steps, failure) == steps[..k + 1] && Stop(steps, failure) == failure(steps[k])
  {
    FirstFailureAt(steps, failure, k);
  }

  /** A run in which no step fails performs every step. */
  lemma Completes(steps: seq<Step>, failure: Step -> Option<string>)
    requires forall j :: 0 <= j < |steps| ==> failure(steps[j]).None?
    ensures Until(steps, failure) == steps && Stop(steps, failure).None?
  {
    FirstFailureAt(steps, failure, |steps|);
  }

  /** The steps `signIpa` performs: the plan up to and including its first
      failure. */
  function Performed(ipaPath: string, p12Path: string, provisionPath: string, password: string,
                     outputDir: string, world: World): seq<Step>
  {
    Until(Plan(ipaPath, p12Path, provisionPath, password, outputDir, world), world.failure)
  }

  /** What `signIpa` resolves or rejects with. */
  function Outcome(ipaPath: string, p12Path: string, provisionPath: string, password: string,
                   outputDir: string, world: World): Result<string, string>
  {
    match Stop(Plan(ipaPath, p12Path, provisionPath, password, outputDir, world), world.failure)
    case Some(e) => Err(FailurePrefix + e)
    case None =>
      match FindAppDirectory(ExtractDir(outputDir), world.payload)
      case Err(msg) => Err(FailurePrefix + msg)
      case Ok(_) => Ok(SignedIpaPath(outputDir, ipaPath))
  }

  /** The plan is unpacking, then listing `Payload`, then the steps on
      the bundle when one is listed. */
  lemma PlanPhases(ipaPath: string, p12Path: string, provisionPath: string, password: string,
                   outputDir: string, world: World)
    ensures var dir := ExtractDir(outputDir);
      var app := FindAppDirectory(dir, world.payload);
      Plan(ipaPath, p12Path, provisionPath, password, outputDir, world)
        == ([EnsureDir(dir), Extract(ipaPath, dir)] + [ListDir(PayloadDir(dir))])
           + (if app.Ok? then BundleSteps(ipaPath, p12Path, provisionPath, password, outputDir, app.value) else [])
  {
  }

  /** A run stops while unpacking when creating the extraction directory
      or extracting the archive fails. */
  lemma RunStopsUnpacking(ipaPath: string, p12Path: string, provisionPath: string, password: string,
                          outputDir: string, world: World)
    requires Stop([EnsureDir(ExtractDir(outputDir)), Extract(ipaPath, ExtractDir(outputDir))], world.failure).Some?
    ensures Performed(ipaPath, p12Path, provisionPath, password, outputDir, world)
      == Until([EnsureDir(ExtractDir(outputDir)), Extract(ipaPath, ExtractDir(outputDir))], world.failure)
    ensures Outcome(ipaPath, p12Path, provisionPath, password, outputDir, world)
      == Err(FailurePrefix + Stop([EnsureDir(ExtractDir(outputDir)), Extract(ipaPath, ExtractDir(outputDir))], world.failure).value)
  {
    var dir := ExtractDir(outputDir);
    var unpack := [EnsureDir(dir), Extract(ipaPath, dir)];
    var list := [ListDir(PayloadDir(dir))];
    var app := FindAppDirectory(dir, world.payload);
    var rest := if app.Ok? then BundleSteps(ipaPath, p12Path, provisionPath, password, outputDir, app.value) else [];
    PlanPhases(ipaPath, p12Path, provisionPath, password, outputDir, world);
    UntilAppend(unpack, list, world.failure);
    UntilAppend(unpack + list, rest, world.failure);
  }

  /** After unpacking, a run stops when `Payload` cannot be listed or lists
      no bundle. */
  lemma RunStopsLocating(ipaPath: string, p12Path: string, provisionPath: string, password: string,
                         outputDir: string, world: World, found: Result<string, string>)
    requires Stop([EnsureDir(ExtractDir(outputDir)), Extract(ipaPath, ExtractDir(outputDir))], world.failure).None?
    requires found == match world.failure(ListDir(PayloadDir(ExtractDir(outputDir))))
      case Some(e) => Err(e)
      case None => FindAppDirectory(ExtractDir(outputDir), world.payload)
    requires found.Err?
    ensures Performed(ipaPath, p12Path, provisionPath, password, outputDir, world)
      == [EnsureDir(ExtractDir(outputDir)), Extract(ipaPath, ExtractDir(outputDir))] + [ListDir(PayloadDir(ExtractDir(outputDir)))]
    ensures Outcome(ipaPath, p12Path, provisionPath, password, outputDir, world) == Err(FailurePrefix + found.error)
  {
    var dir := ExtractDir(outputDir);
    var unpack := [EnsureDir(dir), Extract(ipaPath, dir)];
    var list := [ListDir(PayloadDir(dir))];
    var app := FindAppDirectory(dir, world.payload);
    var rest := if app.Ok? then BundleSteps(ipaPath, p12Path, provisionPath, password, outputDir, app.value) else [];
    PlanPhases(ipaPath, p12Path, provisionPath, password, outputDir, world);
    UntilAppend(unpack, list, world.failure);
    UntilAppend(unpack + list, rest, world.failure);
    Completes([], world.failure);
    if world.failure(list[0]).Some? {
      StopsAt(list, world.failure, 0);
    } else {
      Completes(list, world.failure);
    }
  }

  /** Once the bundle is located, the run continues with the steps on it,
      and its outcome is theirs. */
  lemma RunReachesBundle(ipaPath: string, p12Path: string, provisionPath: string, password: string,
                         outputDir: string, world: World, appPath: string)
    requires Stop([EnsureDir(ExtractDir(outputDir)), Extract(ipaPath, ExtractDir(outputDir))], world.failure).None?
    requires world.failure(ListDir(PayloadDir(ExtractDir(outputDir)))).None?
    requires FindAppDirectory(ExtractDir(outputDir), world.payload) == Ok(appPath)
    ensures Performed(ipaPath, p12Path, provisionPath, password, outputDir, world)
      == [EnsureDir(ExtractDir(outputDir)), Extract(ipaPath, ExtractDir(outputDir))] + [ListDir(PayloadDir(ExtractDir(outputDir)))]
         + Until(BundleSteps(ipaPath, p12Path, provisionPath, password, outputDir, appPath), world.failure)
    ensures Outcome(ipaPath, p12Path, provisionPath, password, outputDir, world)
      == match Stop(BundleSteps(ipaPath, p12Path, provisionPath, password, outputDir, appPath), world.failure)
         case Some(e) => Err(FailurePrefix + e)
         case None => Ok(SignedIpaPath(outputDir, ipaPath))
  {
    var dir := ExtractDir(outputDir);
    var unpack := [EnsureDir(dir), Extract(ipaPath, dir)];
    var list := [ListDir(PayloadDir(dir))];
    var rest := BundleSteps(ipaPath, p12Path, provisionPath, password, outputDir, appPath);
    PlanPhases(ipaPath, p12Path, provisionPath, password, outputDir, world);
    UntilAppend(unpack, list, world.failure);
    UntilAppend(unpack + list, rest, world.failure);
    Completes(list, world.failure);
  }

  /** The steps run in the planned order: what was performed is a prefix
      of the plan, and every performed step but the last succeeded. */
  lemma PerformedIsPrefix(ipaPath: string, p12Path: string, provisionPath: string, password: string,
                          outputDir: string, world: World)
    ensures var plan := Plan(ipaPath, p12Path, provisionPath, password, outputDir, world);
      var performed := Performed(ipaPath, p12Path, provisionPath, password, outputDir, world);
      0 < |performed| <= |plan| && performed == plan[..|performed|]
      && forall j :: 0 <= j < |performed| - 1 ==> world.failure(performed[j]).None?
  {
    var plan := Plan(ipaPath, p12Path, provisionPath, password, outputDir, world);
    StopSpec(plan, world.failure);
  }

  /** A successful run resolves with the signed archive's path. */
  lemma SuccessIsSignedPath(ipaPath: string, p12Path: string, provisionPath: string, password: string,
                            outputDir: string, world: World)
    ensures var outcome := Outcome(ipaPath, p12Path, provisionPath, password, outputDir, world);
      outcome.Ok? ==> outcome.value == SignedIpaPath(outputDir, ipaPath)
  {
  }

  /** Every rejection carries the `Signing failed: ` prefix, followed by
      the failing step's message or the missing-bundle message. */
  lemma FailuresArePrefixed(ipaPath: string, p12Path: string, provisionPath: string, password: string,
                            outputDir: string, world: World)
    ensures var outcome := Outcome(ipaPath, p12Path, provisionPath, password, outputDir, world);
      outcome.Err? ==>
        (StartsWith(outcome.error, FailurePrefix)
         && (outcome.error == FailurePrefix + NoAppMessage
             || exists step :: step in Performed(ipaPath, p12Path, provisionPath, password, outputDir, world)
                  && world.failure(step) == Some(outcome.error[|FailurePrefix|..])))
  {
    var plan := Plan(ipaPath, p12Path, provisionPath, password, outputDir, world);
    StopSpec(plan, world.failure);
    var outcome := Outcome(ipaPath, p12Path, provisionPath, password, outputDir, world);
    if outcome.Err? && Stop(plan, world.failure).Some? {
      var k :| 0 <= k < |plan| && (forall j :: 0 <= j < k ==> world.failure(plan[j]).None?)
               && Stop(plan, world.failure) == world.failure(plan[k]) && Until(plan, world.failure) == plan[..k + 1];
      assert plan[..k + 1][k] == plan[k];
      assert outcome.error[|FailurePrefix|..] == Stop(plan, world.failure).value;
    }
  }

  /** Removing the extraction directory is the plan's last step and
      appears nowhere else in it. */
  lemma RemovalIsLast(ipaPath: string, p12Path: string, provisionPath: string, password: string,
                      outputDir: string, world: World, i: nat)
    requires i < |Plan(ipaPath, p12Path, provisionPath, password, outputDir, world)|
    requires Plan(ipaPath, p12Path, provisionPath, password, outputDir, world)[i] == RemoveDir(ExtractDir(outputDir))
    ensures i == 7 && |Plan(ipaPath, p12Path, provisionPath, password, outputDir, world)| == 8
  {
    PlanPhases(ipaPath, p12Path, provisionPath, password, outputDir, world);
  }

  /** A successful run has performed the whole plan, whose last step is the
      removal. */
  lemma SuccessRemoves(ipaPath: string, p12Path: string, provisionPath: string, password: string,
                       outputDir: string, world: World)
    requires Outcome(ipaPath, p12Path, provisionPath, password, outputDir, world).Ok?
    ensures RemoveDir(ExtractDir(outputDir)) in Performed(ipaPath, p12Path, provisionPath, password, outputDir, world)
    ensures world.failure(RemoveDir(ExtractDir(outputDir))).None?
  {
    var plan := Plan(ipaPath, p12Path, provisionPath, password, outputDir, world);
    StopSpec(plan, world.failure);
    PlanPhases(ipaPath, p12Path, provisionPath, password, outputDir, world);
    assert plan[7] == RemoveDir(ExtractDir(outputDir));
  }

  /** A run that reached the removal and whose removal succeeded has
      succeeded. */
  lemma RemovalMeansSuccess(ipaPath: string, p12Path: string, provisionPath: string, password: string,
                            outputDir: string, world: World)
    requires RemoveDir(ExtractDir(outputDir)) in Performed(ipaPath, p12Path, provisionPath, password, outputDir, world)
    requires world.failure(RemoveDir(ExtractDir(outputDir))).None?
    ensures Outcome(ipaPath, p12Path, provisionPath, password, outputDir, world).Ok?
  {
    var plan := Plan(ipaPath, p12Path, provisionPath, password, outputDir, world);
    var performed := Performed(ipaPath, p12Path, provisionPath, password, outputDir, world);
    PerformedIsPrefix(ipaPath, p12Path, provisionPath, password, outputDir, world);
    var i :| 0 <= i < |performed| && performed[i] == RemoveDir(ExtractDir(outputDir));
    assert plan[i] == performed[i];
    RemovalIsLast(ipaPath, p12Path, provisionPath, password, outputDir, world, i);
    assert performed == plan;
    assert forall j :: 0 <= j < |plan| ==> world.failure(plan[j]).None? by {
      forall j | 0 <= j < |plan|
        ensures world.failure(plan[j]).None?
      {
        if j < 7 {
          assert plan[j] == performed[j];
        }
      }
    }
    StopSpec(plan, world.failure);
    PlanPhases(ipaPath, p12Path, provisionPath, password, outputDir, world);
  }

  /** The extraction directory is removed only on the success path: the
      run succeeds exactly when the removal was reached and did not fail. A
      run that fails earlier leaves the extracted files in place. */
  lemma ExtractionRemovedOnlyOnSuccess(ipaPath: string, p12Path: string, provisionPath: string, password: string,
                                       outputDir: string, world: World)
    ensures var removal := RemoveDir(ExtractDir(outputDir));
      Outcome(ipaPath, p12Path, provisionPath, password, outputDir, world).Ok?
      <==> removal in Performed(ipaPath, p12Path, provisionPath, password, outputDir, world)
           && world.failure(removal).None?
  {
    var removal := RemoveDir(ExtractDir(outputDir));
    if Outcome(ipaPath, p12Path, provisionPath, password, outputDir, world).Ok? {
      SuccessRemoves(ipaPath, p12Path, provisionPath, password, outputDir, world);
    }
    if removal in Performed(ipaPath, p12Path, provisionPath, password, outputDir, world) && world.failure(removal).None? {
      RemovalMeansSuccess(ipaPath, p12Path, provisionPath, password, outputDir, world);
    }
  }

  /** A log that held `start` and the first `k` planned steps holds the
      first `k + 1` once step `k` is appended. */
  lemma LogStep<T>(start: seq<T>, before: seq<T>, after: seq<T>, plan: seq<T>, k: nat)
    requires k < |plan|
    requires before == start + plan[..k]
    requires after == before + [plan[k]]
    ensures after == start + plan[..k + 1]
  {
    assert plan[..k + 1] == plan[..k] + [plan[k]];
  }

  /** Regrouping the phases of a run's log. */
  lemma AppendThree<T>(a: seq<T>, b: seq<T>, c: seq<T>, d: seq<T>)
    ensures ((a + b) + c) + d == a + ((b + c) + d)
  {
  }

  /** One more step that succeeded extends the run of successes. */
  lemma SucceededStep(steps: seq<Step>, failure: Step -> Option<string>, k: nat)
    requires k < |steps|
    requires forall j :: 0 <= j < k ==> failure(steps[j]).None?
    requires failure(steps[k]).None?
    ensures forall j :: 0 <= j < k + 1 ==> failure(steps[j]).None?
  {
  }

  /** The file system as the pipeline sees it: the log of steps performed
      on it. */
  class Workspace {
    var log: seq<Step>

    constructor()
      ensures log == []
    {
      log := [];
    }

    method Perform(step: Step, world: World) returns (error: Option<string>)
      modifies this
      ensures log == old(log) + [step]
      ensures error == world.failure(step)
    {
      log := log + [step];
      error := world.failure(step);
    }

    /** Lines 11-15 of `signIpa`: create the extraction directory, then
        extract the archive into it. */
    method Unpack(ipaPath: string, extractDir: string, world: World) returns (error: Option<string>)
      modifies this
      ensures log == old(log) + Until([EnsureDir(extractDir), Extract(ipaPath, extractDir)], world.failure)
      ensures error == Stop([EnsureDir(extractDir), Extract(ipaPath, extractDir)], world.failure)
      ensures error.None? ==> log == old(log) + [EnsureDir(extractDir), Extract(ipaPath, extractDir)]
    {
      ghost var steps := [EnsureDir(extractDir), Extract(ipaPath, extractDir)];
      error := Perform(EnsureDir(extractDir), world);
      if error.Some? {
        StopsAt(steps, world.failure, 0);
        return;
      }
      error := Perform(Extract(ipaPath, extractDir), world);
      if error.Some? {
        StopsAt(steps, world.failure, 1);
        assert steps[..2] == steps;
        return;
      }
      Completes(steps, world.failure);
    }

    /** `findAppDirectory(extractDir)`: list `Payload`, then pick the first
        `.app` entry. */
    method FindApp(extractDir: string, world: World) returns (found: Result<string, string>)
      modifies this
      ensures log == old(log) + [ListDir(PayloadDir(extractDir))]
      ensures found == match world.failure(ListDir(PayloadDir(extractDir)))
        case Some(e) => Err(e)
        case None => FindAppDirectory(extractDir, world.payload)
    {
      var error := Perform(ListDir(PayloadDir(extractDir)), world);
      if error.Some? {
        return Err(error.value);
      }
      found := FindAppDirectory(extractDir, world.payload);
    }

    /** Lines 19-32 of `signIpa`: read the bundle's `Info.plist`, replace
        its profile, sign it, package the archive and remove the extraction
        directory, stopping at the first error. */
    method ProcessBundle(ipaPath: string, p12Path: string, provisionPath: string, password: string,
                         outputDir: string, appPath: string, world: World) returns (error: Option<string>)
      modifies this
      ensures log == old(log) + Until(BundleSteps(ipaPath, p12Path, provisionPath, password, outputDir, appPath), world.failure)
      ensures error == Stop(BundleSteps(ipaPath, p12Path, provisionPath, password, outputDir, appPath), world.failure)
    {
      ghost var steps := BundleSteps(ipaPath, p12Path, provisionPath, password, outputDir, appPath);
      var extractDir := ExtractDir(outputDir);
      ghost var before0 := log;
      error := Perform(ReadInfo(PathJoin(appPath, "Info.plist")), world);
      LogStep(old(log), before0, log, steps, 0);
      if error.Some? {
        StopsAt(steps, world.failure, 0);
        return;
      }
      SucceededStep(steps, world.failure, 0);
      ghost var before1 := log;
      error := Perform(CopyProfile(provisionPath, ProfileDestination(appPath)), world);
      LogStep(old(log), before1, log, steps, 1);
      if error.Some? {
        StopsAt(steps, world.failure, 1);
        return;
      }
      SucceededStep(steps, world.failure, 1);
      ghost var before2 := log;
      error := Perform(SignApp(appPath, p12Path, password), world);
      LogStep(old(log), before2, log, steps, 2);
      if error.Some? {
        StopsAt(steps, world.failure, 2);
        return;
      }
      SucceededStep(steps, world.failure, 2);
      ghost var before3 := log;
      error := Perform(Package(extractDir, SignedIpaPath(outputDir, ipaPath)), world);
      LogStep(old(log), before3, log, steps, 3);
      if error.Some? {
        StopsAt(steps, world.failure, 3);
        return;
      }
      SucceededStep(steps, world.failure, 3);
      ghost var before4 := log;
      error := Perform(RemoveDir(extractDir), world);
      LogStep(old(log), before4, log, steps, 4);
      if error.Some? {
        StopsAt(steps, world.failure, 4);
        return;
      }
      SucceededStep(steps, world.failure, 4);
      Completes(steps, world.failure);
      assert steps[..5] == steps;
    }
  }

  /** `signIpa(ipaPath, p12Path, provisionPath, password, outputDir)`: each
      step runs only when the previous one succeeded, and the first error
      is rethrown with the `Signing failed: ` prefix. */
  method SignIpa(ws: Workspace, ipaPath: string, p12Path: string, provisionPath: string,
                 password: string, outputDir: string, world: World) returns (result: Result<string, string>)
    modifies ws
    ensures ws.log == old(ws.log) + Performed(ipaPath, p12Path, provisionPath, password, outputDir, world)
    ensures result == Outcome(ipaPath, p12Path, provisionPath, password, outputDir, world)
  {
    var extractDir := ExtractDir(outputDir);
    ghost var unpack := [EnsureDir(extractDir), Extract(ipaPath, extractDir)];
    ghost var list := [ListDir(PayloadDir(extractDir))];
    var error := ws.Unpack(ipaPath, extractDir, world);
    if error.Some? {
      RunStopsUnpacking(ipaPath, p12Path, provisionPath, password, outputDir, world);
      return Err(FailurePrefix + error.value);
    }
    var found := ws.FindApp(extractDir, world);
    if found.Err? {
      RunStopsLocating(ipaPath, p12Path, provisionPath, password, outputDir, world, found);
      AppendThree(old(ws.log), unpack, list, []);
      return Err(FailurePrefix + found.error);
    }
    var appPath := found.value;
    RunReachesBundle(ipaPath, p12Path, provisionPath, password, outputDir, world, appPath);
    error := ws.ProcessBundle(ipaPath, p12Path, provisionPath, password, outputDir, appPath, world);
    AppendThree(old(ws.log), unpack, list,
                Until(BundleSteps(ipaPath, p12Path, provisionPath, password, outputDir, appPath), world.failure));
    if error.Some? {
      return Err(FailurePrefix + error.value);
    }
    return Ok(SignedIpaPath(outputDir, ipaPath));
  }
}
