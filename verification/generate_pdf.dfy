/** The `GET` handler of src/app/api/generate-pdf/route.ts. Puppeteer is a
    foreign library, so each awaited browser call is an abstract step whose
    outcome (resolve, or throw a value) is an input, as are the bytes the PDF
    step produces, the outcome of each `browser.close()` and how each image
    of the page settles. The handler's own control flow is modelled: the
    order of the steps, the nullable `browser` handle and its cleanup in the
    `catch`, and the construction of the response. */
module GeneratePdf {
  import opened Wrappers
  import opened Text

  // ---------------------------------------------------------------------------
  // Steps, outcomes and the environment

  /** The awaited steps of the `try` block, in source order. */
  datatype Stage =
    | ParseUrl       // new URL(request.url)
    | Launch         // puppeteer.launch(...)
    | NewPage        // browser.newPage()
    | SetViewport    // page.setViewport(...)
    | EmulatePrint   // page.emulateMediaType('print')
    | Goto           // page.goto(printUrl, ...)
    | FontsReady     // page.evaluate(() => document.fonts.ready)
    | WaitImages     // page.evaluate(...) waiting for every image
    | RenderDelay    // new Promise(resolve => setTimeout(resolve, 5000))
    | PrintPdf       // page.pdf(...)

  const Pipeline: seq<Stage> :=
    [ParseUrl, Launch, NewPage, SetViewport, EmulatePrint, Goto, FontsReady, WaitImages, RenderDelay, PrintPdf]

  /** What a rejected call throws: an `Error` with its message, or any other value. */
  datatype Thrown = ErrorObject(message: string) | NonError

  /** One thing the handler does to the outside world. */
  datatype Call = Step(stage: Stage) | CloseBrowser

  /** How the outside world answers: the value each failing step throws (a
      stage not in `failures` resolves), the outcome of the `close` on the
      success path and of the one in the `catch`, and the PDF bytes. */
  datatype Env = Env(
    failures: map<Stage, Thrown>,
    successClose: Option<Thrown>,
    catchClose: Option<Thrown>,
    pdf: seq<bv8>)

  /** The outcome of one step. The render delay is a timer and never rejects. */
  function StepOutcome(env: Env, s: Stage): (o: Outcome<Thrown>)
    ensures o.Fail? <==> s != RenderDelay && s in env.failures
    ensures o.Fail? ==> o.error == env.failures[s]
  {
    if s != RenderDelay && s in env.failures then Fail(env.failures[s]) else Pass
  }

  /** The outcome of a `browser.close()`. */
  function CloseOutcome(thrown: Option<Thrown>): (o: Outcome<Thrown>)
    ensures o.Fail? <==> thrown.Some?
    ensures o.Fail? ==> o.error == thrown.value
  {
    match thrown
    case Some(e) => Fail(e)
    case None => Pass
  }

  /** The steps before index `j` all resolve. */
  predicate PassesBefore(env: Env, j: nat)
    requires j <= |Pipeline|
  {
    forall i :: 0 <= i < j ==> StepOutcome(env, Pipeline[i]).Pass?
  }

  /** The index of the first step that throws, if any. */
  function FirstFailure(env: Env): (k: Option<nat>)
    ensures k.Some? ==> k.value < |Pipeline| && PassesBefore(env, k.value)
                        && StepOutcome(env, Pipeline[k.value]).Fail?
    ensures k.None? ==> PassesBefore(env, |Pipeline|)
  {
    FailureFrom(env, 0)
  }

  function FailureFrom(env: Env, i: nat): (k: Option<nat>)
    requires i <= |Pipeline| && PassesBefore(env, i)
    ensures k.Some? ==> i <= k.value < |Pipeline| && PassesBefore(env, k.value)
                        && StepOutcome(env, Pipeline[k.value]).Fail?
    ensures k.None? ==> PassesBefore(env, |Pipeline|)
    decreases |Pipeline| - i
  {
    if i == |Pipeline| then None
    else if StepOutcome(env, Pipeline[i]).Fail? then Some(i)
    else FailureFrom(env, i + 1)
  }

  /** The first failure is the only index with that property. */
  lemma FirstFailureUnique(env: Env, j: nat)
    requires j < |Pipeline| && PassesBefore(env, j) && StepOutcome(env, Pipeline[j]).Fail?
    ensures FirstFailure(env) == Some(j)
  {
  }

  // ---------------------------------------------------------------------------
  // The response

  datatype Body = PdfBytes(bytes: seq<bv8>) | Json(error: string, details: string)

  datatype Response = Response(status: nat, headers: map<string, string>, body: Body)

  const FileName: string := "Practical-Jobs-to-be-Done.pdf"

  /** `error instanceof Error ? error.message : 'Unknown error'` */
  function Details(e: Thrown): (d: string)
    ensures e.ErrorObject? ==> d == e.message
    ensures e.NonError? ==> d == "Unknown error"
  {
    match e
    case ErrorObject(m) => m
    case NonError => "Unknown error"
  }

  /** The response of the `catch` block. */
  function ErrorResponse(e: Thrown): (r: Response)
    ensures r.status == 500 && r.body == Json("Failed to generate PDF", Details(e))
  {
    Response(500, map[], Json("Failed to generate PDF", Details(e)))
  }

  /** The response of the success path: the PDF as a download that no cache keeps. */
  function PdfResponse(pdf: seq<bv8>): (r: Response)
    ensures r.status == 200 && r.body == PdfBytes(pdf)
    ensures r.headers.Keys == {"Content-Type", "Content-Disposition", "Content-Length", "Cache-Control", "Pragma", "Expires"}
    ensures r.headers["Content-Type"] == "application/pdf"
    ensures r.headers["Content-Disposition"] == "attachment; filename=\"" + FileName + "\""
    ensures r.headers["Content-Length"] == NatStr(|pdf|)
    ensures r.headers["Cache-Control"] == "no-store, no-cache, must-revalidate, max-age=0"
    ensures r.headers["Pragma"] == "no-cache" && r.headers["Expires"] == "0"
  {
    Response(200, map[
      "Content-Type" := "application/pdf",
      "Content-Disposition" := "attachment; filename=\"" + FileName + "\"",
      "Content-Length" := NatStr(|pdf|),
      "Cache-Control" := "no-store, no-cache, must-revalidate, max-age=0",
      "Pragma" := "no-cache",
      "Expires" := "0"], PdfBytes(pdf))
  }

  /** The `Content-Disposition` value is an attachment whose quoted filename
      parameter is the book's file name (section 4 of RFC 6266). */
  lemma DispositionIsAttachment(pdf: seq<bv8>)
    ensures StartsWith(PdfResponse(pdf).headers["Content-Disposition"], "attachment; filename=\"")
    ensures EndsWith(PdfResponse(pdf).headers["Content-Disposition"], ".pdf\"")
  {
    var v := PdfResponse(pdf).headers["Content-Disposition"];
    assert v[..|"attachment; filename=\""|] == "attachment; filename=\"";
    assert v[|v| - 5..] == ".pdf\"";
  }

  // ---------------------------------------------------------------------------
  // The handler

  /** The `try` block. Each `:-` is an `await` that may throw; `browser` is
      the handle, set once the launch resolves and cleared after the success
      path's `close`. */
  method TryBlock(env: Env) returns (r: Outcome<Thrown>, browser: bool, pdf: seq<bv8>, trace: seq<Call>)
    ensures TryState(r, browser, trace) == ExpectedTry(env)
    ensures r.Pass? ==> pdf == env.pdf
  {
    browser, pdf, trace := false, [], [];
    var launched, starting := StartBrowser(env);
    trace := starting;
    Exit(env, 2, launched, trace, browser);
    :- launched;
    browser := true;
    var prepared, setup := OpenPage(env);
    Join(env, 0, 2, 5, trace, prepared, setup);
    trace := trace + setup;
    Exit(env, 5, prepared, trace, browser);
    :- prepared;
    var loaded, loading := LoadPage(env);
    Join(env, 0, 5, 9, trace, loaded, loading);
    trace := trace + loading;
    Exit(env, 9, loaded, trace, browser);
    :- loaded;
    var printed, printing := PrintPage(env);
    Join(env, 0, 9, 10, trace, printed, printing);
    trace := trace + printing;
    Exit(env, 10, printed, trace, browser);
    :- printed;
    pdf := env.pdf;
    trace := trace + [CloseBrowser];
    :- CloseOutcome(env.successClose);
    browser := false;
    r := Pass;
  }

  /** Parsing the request URL, then launching the browser. */
  method StartBrowser(env: Env) returns (r: Outcome<Thrown>, calls: seq<Call>)
    ensures Ran(env, 0, 2, r, calls)
  {
    calls := [];
    Advance(env, 0, 0, ParseUrl, calls);
    calls := calls + [Step(ParseUrl)];
    :- StepOutcome(env, ParseUrl);
    Advance(env, 0, 1, Launch, calls);
    calls := calls + [Step(Launch)];
    :- StepOutcome(env, Launch);
    r := Pass;
  }

  /** A phase that threw ends the `try` block as the whole block specifies:
      the handle is set exactly when the launch had resolved. */
  lemma Exit(env: Env, c: nat, r: Outcome<Thrown>, trace: seq<Call>, browser: bool)
    requires 2 <= c <= |Pipeline| && Ran(env, 0, c, r, trace)
    requires browser <==> c > 2
    requires c > 2 ==> PassesBefore(env, 2)
    ensures r.Fail? ==> TryState(r, browser, trace) == ExpectedTry(env)
    ensures r.Pass? && c == |Pipeline| ==> FirstFailure(env).None? && trace == Steps(Pipeline)
  {
    if r.Fail? {
      assert FirstFailure(env).Some?;
      assert Pipeline[0..FirstFailure(env).value + 1] == Pipeline[..FirstFailure(env).value + 1];
    } else if c == |Pipeline| {
      assert Pipeline[0..c] == Pipeline;
    }
  }

  /** Creating the page and preparing it for print: a new page, the 1200 by 1600
      viewport, then print media emulation. */
  method OpenPage(env: Env) returns (r: Outcome<Thrown>, calls: seq<Call>)
    requires PassesBefore(env, 2)
    ensures Ran(env, 2, 5, r, calls)
  {
    calls := [];
    Advance(env, 2, 2, NewPage, calls);
    calls := calls + [Step(NewPage)];
    :- StepOutcome(env, NewPage);
    Advance(env, 2, 3, SetViewport, calls);
    calls := calls + [Step(SetViewport)];
    :- StepOutcome(env, SetViewport);
    Advance(env, 2, 4, EmulatePrint, calls);
    calls := calls + [Step(EmulatePrint)];
    :- StepOutcome(env, EmulatePrint);
    r := Pass;
  }

  /** Loading the print page and letting it settle: navigation, fonts,
      images, then the fixed render delay. */
  method LoadPage(env: Env) returns (r: Outcome<Thrown>, calls: seq<Call>)
    requires PassesBefore(env, 5)
    ensures Ran(env, 5, 9, r, calls)
  {
    calls := [];
    Advance(env, 5, 5, Goto, calls);
    calls := calls + [Step(Goto)];
    :- StepOutcome(env, Goto);
    Advance(env, 5, 6, FontsReady, calls);
    calls := calls + [Step(FontsReady)];
    :- StepOutcome(env, FontsReady);
    Advance(env, 5, 7, WaitImages, calls);
    calls := calls + [Step(WaitImages)];
    :- StepOutcome(env, WaitImages);
    Advance(env, 5, 8, RenderDelay, calls);
    calls := calls + [Step(RenderDelay)];  // a timer: it never rejects
    r := Pass;
  }

  /** Printing the page to PDF. */
  method PrintPage(env: Env) returns (r: Outcome<Thrown>, calls: seq<Call>)
    requires PassesBefore(env, 9)
    ensures Ran(env, 9, 10, r, calls)
  {
    calls := [];
    Advance(env, 9, 9, PrintPdf, calls);
    calls := calls + [Step(PrintPdf)];
    :- StepOutcome(env, PrintPdf);
    r := Pass;
  }

  /** Running steps `a` up to `b`, the steps before `a` having resolved: the
      outcome is the first failure among them, and the calls are those steps
      up to and including it. */
  predicate Ran(env: Env, a: nat, b: nat, r: Outcome<Thrown>, calls: seq<Call>)
    requires a <= b <= |Pipeline|
  {
    match FirstFailure(env)
    case Some(k) =>
      if k < b then a <= k && r == Fail(env.failures[Pipeline[k]]) && calls == Steps(Pipeline[a..k + 1])
      else r.Pass? && PassesBefore(env, b) && calls == Steps(Pipeline[a..b])
    case None => r.Pass? && PassesBefore(env, b) && calls == Steps(Pipeline[a..b])
  }

  /** Two consecutive runs make one. */
  lemma Join(env: Env, a: nat, b: nat, c: nat, x: seq<Call>, r: Outcome<Thrown>, y: seq<Call>)
    requires a <= b <= c <= |Pipeline|
    requires PassesBefore(env, b) && x == Steps(Pipeline[a..b]) && Ran(env, b, c, r, y)
    ensures Ran(env, a, c, r, x + y)
  {
    match FirstFailure(env)
    case Some(k) =>
      if k < c {
        StepsSplit(a, b, k + 1);
      } else {
        StepsSplit(a, b, c);
      }
    case None =>
      StepsSplit(a, b, c);
  }

  /** The calls of consecutive stretches of the pipeline concatenate. */
  lemma StepsSplit(a: nat, b: nat, m: nat)
    requires a <= b <= m <= |Pipeline|
    ensures Steps(Pipeline[a..b]) + Steps(Pipeline[b..m]) == Steps(Pipeline[a..m])
  {
    assert Pipeline[a..b] + Pipeline[b..m] == Pipeline[a..m];
    StepsAppend(Pipeline[a..b], Pipeline[b..m]);
  }

  lemma StepsAppend(x: seq<Stage>, y: seq<Stage>)
    ensures Steps(x + y) == Steps(x) + Steps(y)
  {
  }

  /** Attempting step `j` after steps `a` up to `j` resolved: the call joins
      the trace, and the step is either the first to throw or one more that
      resolved. */
  lemma Advance(env: Env, a: nat, j: nat, s: Stage, calls: seq<Call>)
    requires a <= j < |Pipeline| && Pipeline[j] == s
    requires PassesBefore(env, j) && calls == Steps(Pipeline[a..j])
    ensures calls + [Step(s)] == Steps(Pipeline[a..j + 1])
    ensures StepOutcome(env, s).Pass? ==> PassesBefore(env, j + 1)
    ensures StepOutcome(env, s).Fail? ==> FirstFailure(env) == Some(j)
    ensures StepOutcome(env, s).Pass? && j == |Pipeline| - 1 ==> FirstFailure(env).None?
  {
    StepsSplit(a, j, j + 1);
    assert Steps(Pipeline[j..j + 1]) == [Step(s)];
    if StepOutcome(env, s).Fail? {
      FirstFailureUnique(env, j);
    }
  }

  /** Where the `try` block leaves a request: its outcome, whether the
      `browser` handle is still set, and the calls made so far. */
  datatype TryState = TryState(outcome: Outcome<Thrown>, browserSet: bool, calls: seq<Call>)

  /** The `try` block makes the calls up to the first step that throws, which
      it rethrows; or all of them followed by the success path's `close`,
      which leaves the handle set if it throws. The handle is set exactly when
      the launch resolved and the handle was not cleared afterwards. */
  function ExpectedTry(env: Env): TryState {
    match FirstFailure(env)
    case Some(k) => TryState(Fail(env.failures[Pipeline[k]]), k > 1, Steps(Pipeline[..k + 1]))
    case None =>
      TryState(CloseOutcome(env.successClose), env.successClose.Some?, Steps(Pipeline) + [CloseBrowser])
  }

  function Steps(stages: seq<Stage>): (calls: seq<Call>)
    ensures |calls| == |stages|
    ensures forall i :: 0 <= i < |stages| ==> calls[i] == Step(stages[i])
  {
    seq(|stages|, i requires 0 <= i < |stages| => Step(stages[i]))
  }

  /** `GET(request)`: the `try` block, then, if it threw, the `catch` block,
      which closes a still-open browser (ignoring what that close throws) and
      answers 500 with the error the `try` block threw. */
  method Get(env: Env) returns (response: Response, trace: seq<Call>)
    ensures trace == ExpectedTrace(env)
    ensures response == ExpectedResponse(env)
  {
    var r, browser, pdf;
    r, browser, pdf, trace := TryBlock(env);
    TryThenCatch(env);
    if r.Pass? {
      response := PdfResponse(pdf);
    } else {
      if browser {
        trace := trace + [CloseBrowser];
        var closed := CloseOutcome(env.catchClose);
      }
      response := ErrorResponse(r.error);
    }
  }

  /** A request is its `try` block followed, if that threw, by the `catch`
      block: one more close when the handle is still set, and the 500 built
      from what the `try` block threw. */
  lemma TryThenCatch(env: Env)
    ensures ExpectedTrace(env) ==
              ExpectedTry(env).calls +
              (if ExpectedTry(env).outcome.Fail? && ExpectedTry(env).browserSet then [CloseBrowser] else [])
    ensures ExpectedResponse(env) ==
              if ExpectedTry(env).outcome.Pass? then PdfResponse(env.pdf) else ErrorResponse(ExpectedTry(env).outcome.error)
  {
  }

  /** Every call of a request, in order. */
  function ExpectedTrace(env: Env): seq<Call> {
    match FirstFailure(env)
    case Some(k) => Steps(Pipeline[..k + 1]) + (if k > 1 then [CloseBrowser] else [])
    case None => Steps(Pipeline) + [CloseBrowser] + (if env.successClose.Some? then [CloseBrowser] else [])
  }

  /** The response of a request. */
  function ExpectedResponse(env: Env): Response {
    match FirstFailure(env)
    case Some(k) => ErrorResponse(env.failures[Pipeline[k]])
    case None =>
      match env.successClose
      case Some(e) => ErrorResponse(e)
      case None => PdfResponse(env.pdf)
  }

  // ---------------------------------------------------------------------------
  // What the handler guarantees

  /** How often `browser.close()` is called. */
  function Closes(trace: seq<Call>): nat {
    if trace == [] then 0
    else (if trace[|trace| - 1] == CloseBrowser then 1 else 0) + Closes(trace[..|trace| - 1])
  }

  lemma {:induction false} ClosesAppend(a: seq<Call>, b: seq<Call>)
    ensures Closes(a + b) == Closes(a) + Closes(b)
    decreases |b|
  {
    if b != [] {
      assert (a + b)[..|a + b| - 1] == a + b[..|b| - 1];
      ClosesAppend(a, b[..|b| - 1]);
    } else {
      assert a + b == a;
    }
  }

  lemma {:induction false} ClosesSteps(stages: seq<Stage>)
    ensures Closes(Steps(stages)) == 0
    decreases |stages|
  {
    if stages != [] {
      assert Steps(stages)[..|stages| - 1] == Steps(stages[..|stages| - 1]);
      ClosesSteps(stages[..|stages| - 1]);
    }
  }

  /** The browser was launched: the launch step resolved. */
  predicate Launched(env: Env) {
    match FirstFailure(env)
    case Some(k) => k > 1
    case None => true
  }

  /** The browser is closed on every path after a successful launch and on no
      other path; it is closed twice exactly when the success path's close
      throws, because `browser = null` is then never reached. */
  lemma CloseCount(env: Env)
    ensures Launched(env) <==> Closes(ExpectedTrace(env)) > 0
    ensures Closes(ExpectedTrace(env)) == 2 <==> FirstFailure(env).None? && env.successClose.Some?
    ensures Closes(ExpectedTrace(env)) <= 2
  {
    match FirstFailure(env)
    case Some(k) =>
      ClosesSteps(Pipeline[..k + 1]);
      ClosesAppend(Steps(Pipeline[..k + 1]), if k > 1 then [CloseBrowser] else []);
      assert Closes([CloseBrowser]) == 1;
    case None =>
      ClosesSteps(Pipeline);
      ClosesAppend(Steps(Pipeline), [CloseBrowser]);
      ClosesAppend(Steps(Pipeline) + [CloseBrowser], if env.successClose.Some? then [CloseBrowser] else []);
      assert Closes([CloseBrowser]) == 1;
  }

  /** If the launch throws, nothing is closed: the handle is still null. */
  lemma LaunchFailureClosesNothing(env: Env)
    requires ParseUrl !in env.failures && Launch in env.failures
    ensures ExpectedTrace(env) == [Step(ParseUrl), Step(Launch)]
    ensures ExpectedResponse(env) == ErrorResponse(env.failures[Launch])
  {
    assert PassesBefore(env, 1);
    FirstFailureUnique(env, 1);
    assert Pipeline[..2] == [ParseUrl, Launch];
  }

  /** A request's calls are the steps in source order up to some point,
      followed only by closes. */
  lemma TraceShape(env: Env) returns (n: nat)
    ensures n <= |Pipeline| && n <= |ExpectedTrace(env)|
    ensures ExpectedTrace(env)[..n] == Steps(Pipeline[..n])
    ensures forall i :: n <= i < |ExpectedTrace(env)| ==> ExpectedTrace(env)[i] == CloseBrowser
  {
    match FirstFailure(env)
    case Some(k) =>
      n := k + 1;
      var t := ExpectedTrace(env);
      assert t[..n] == Steps(Pipeline[..n]);
    case None =>
      n := |Pipeline|;
      var t := ExpectedTrace(env);
      assert t[..n] == Steps(Pipeline[..n]);
  }

  /** Print media is emulated before the page is loaded: whenever `goto` is
      called, `emulateMediaType('print')` was the call just before it; and
      the steps called are always a prefix of the source order. */
  lemma EmulateBeforeGoto(env: Env)
    ensures exists n :: 0 <= n <= |Pipeline| && n <= |ExpectedTrace(env)| && ExpectedTrace(env)[..n] == Steps(Pipeline[..n])
                        && forall i :: n <= i < |ExpectedTrace(env)| ==> ExpectedTrace(env)[i] == CloseBrowser
    ensures forall i :: 0 <= i < |ExpectedTrace(env)| && ExpectedTrace(env)[i] == Step(Goto) ==>
              i > 0 && ExpectedTrace(env)[i - 1] == Step(EmulatePrint)
  {
    var t := ExpectedTrace(env);
    var n := TraceShape(env);
    forall i | 0 <= i < |t| && t[i] == Step(Goto) ensures i > 0 && t[i - 1] == Step(EmulatePrint) {
      assert i < n;
      assert t[i] == t[..n][i] == Step(Pipeline[i]);
      assert i == 5 by {
        assert Pipeline[i] == Goto;
      }
      assert t[4] == t[..n][4];
    }
  }

  /** The response is 200 exactly when nothing threw; otherwise it is the 500
      built from the first thrown value. */
  lemma ResponseSpec(env: Env)
    ensures ExpectedResponse(env).status == 200 <==> FirstFailure(env).None? && env.successClose.None?
    ensures ExpectedResponse(env).status == 200 ==> ExpectedResponse(env) == PdfResponse(env.pdf)
    ensures ExpectedResponse(env).status != 200 ==>
              ExpectedResponse(env).status == 500 && ExpectedResponse(env).body.Json?
  {
  }

  /** What the `catch` block's own `close` throws never reaches the response. */
  lemma CloseErrorIgnored(env: Env, other: Option<Thrown>)
    ensures ExpectedResponse(env.(catchClose := other)) == ExpectedResponse(env)
  {
    var env' := env.(catchClose := other);
    forall i | 0 <= i < |Pipeline| ensures StepOutcome(env', Pipeline[i]) == StepOutcome(env, Pipeline[i]) {
    }
    SameFailures(env, env', 0);
  }

  /** Two environments whose steps behave alike fail at the same step. */
  lemma {:induction false} SameFailures(a: Env, b: Env, i: nat)
    requires i <= |Pipeline| && PassesBefore(a, i) && PassesBefore(b, i)
    requires a.failures == b.failures
    ensures FailureFrom(a, i) == FailureFrom(b, i)
    decreases |Pipeline| - i
  {
    if i < |Pipeline| && StepOutcome(a, Pipeline[i]).Pass? {
      SameFailures(a, b, i + 1);
    }
  }

  // ---------------------------------------------------------------------------
  // Waiting for the images

  /** Which event reaches an image first after the wait starts. */
  datatype LoadEvent = LoadFires | ErrorFires | NoEvent

  /** An `img` element of the print page. */
  datatype ImageProbe = ImageProbe(src: string, complete: bool, naturalHeight: int, event: LoadEvent)

  /** How an image's promise resolves. None of them rejects. */
  datatype Settle = AlreadyLoaded | Loaded | Errored | TimedOut

  /** `img.complete && img.naturalHeight !== 0` decides "already loaded";
      otherwise the first of `onload`, `onerror` and the 15 s timer decides. */
  function Classify(img: ImageProbe): (s: Settle)
    ensures s == AlreadyLoaded <==> img.complete && img.naturalHeight != 0
    ensures s == Loaded <==> !(img.complete && img.naturalHeight != 0) && img.event == LoadFires
    ensures s == Errored <==> !(img.complete && img.naturalHeight != 0) && img.event == ErrorFires
    ensures s == TimedOut <==> !(img.complete && img.naturalHeight != 0) && img.event == NoEvent
  {
    if img.complete && img.naturalHeight != 0 then AlreadyLoaded
    else match img.event
      case LoadFires => Loaded
      case ErrorFires => Errored
      case NoEvent => TimedOut
  }

  /** `img.src?.substring(0, 50)` */
  function SrcPrefix(src: string): (p: string)
    ensures |p| <= 50 && |p| <= |src| && p == src[..|p|]
    ensures |src| <= 50 ==> p == src
  {
    if |src| <= 50 then src else src[..50]
  }

  /** The string the promise of image `index` resolves with. */
  function SettleMessage(index: nat, img: ImageProbe): (m: string)
    ensures StartsWith(m, "Image " + NatStr(index) + ": ")
  {
    var head := "Image " + NatStr(index) + ": ";
    var m := match Classify(img)
      case AlreadyLoaded => head + "already loaded"
      case Loaded => head + "loaded"
      case Errored => head + "error (src: " + SrcPrefix(img.src) + "...)"
      case TimedOut => head + "timeout (src: " + SrcPrefix(img.src) + "...)";
    assert m[..|head|] == head;
    m
  }

  /** The word after an image's head names how the image settled, and the
      failure messages quote the start of its `src`. */
  lemma SettleMessageNamesOutcome(index: nat, img: ImageProbe)
    ensures |SettleMessage(index, img)| > |"Image " + NatStr(index) + ": "|
    ensures SettleMessage(index, img)[|"Image " + NatStr(index) + ": "|] == 'a' <==> Classify(img) == AlreadyLoaded
    ensures SettleMessage(index, img)[|"Image " + NatStr(index) + ": "|] == 'l' <==> Classify(img) == Loaded
    ensures SettleMessage(index, img)[|"Image " + NatStr(index) + ": "|] == 'e' <==> Classify(img) == Errored
    ensures SettleMessage(index, img)[|"Image " + NatStr(index) + ": "|] == 't' <==> Classify(img) == TimedOut
    ensures Classify(img) in {Errored, TimedOut} ==>
              Contains(SettleMessage(index, img), "(src: " + SrcPrefix(img.src) + "...)")
  {
    var head := "Image " + NatStr(index) + ": ";
    var m := SettleMessage(index, img);
    var quoted := "(src: " + SrcPrefix(img.src) + "...)";
    match Classify(img)
    case AlreadyLoaded =>
      assert m == head + "already loaded";
      assert m[|head|] == 'a';
    case Loaded =>
      assert m == head + "loaded";
      assert m[|head|] == 'l';
    case Errored =>
      assert m == head + "error " + quoted;
      assert m[|head|] == 'e';
      QuotedOccurs(head + "error ", quoted);
    case TimedOut =>
      assert m == head + "timeout " + quoted;
      assert m[|head|] == 't';
      QuotedOccurs(head + "timeout ", quoted);
  }

  /** A string occurs in any string that ends with it. */
  lemma QuotedOccurs(prefix: string, q: string)
    ensures Contains(prefix + q, q)
  {
    assert OccursAt(prefix + q, q, |prefix|) by {
      assert (prefix + q)[|prefix|..|prefix| + |q|] == q;
    }
  }

  /** `Promise.all(images.map(...))`: one result per image, in image order. */
  function SettleAll(images: seq<ImageProbe>): (results: seq<string>)
    ensures |results| == |images|
    ensures forall i :: 0 <= i < |images| ==> results[i] == SettleMessage(i, images[i])
  {
    seq(|images|, i requires 0 <= i < |images| => SettleMessage(i, images[i]))
  }
}
