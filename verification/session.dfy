/** The mirror session: the flags the window shows (`loading`, `error`,
    `permissionWarning`) and the client and decoder it holds, as one start
    attempt runs through its awaits.

    Each `await` is a point where the effect cleanup can run: the window is
    closed or a retry is requested. Cleanup clears the attempt's `active`
    flag and closes whatever client and decoder the refs hold; on a retry the
    next attempt's synchronous start runs straight after. The stale attempt
    then resumes. What each device step returned is an input (`BootIO`); the
    device work itself is left out. */
module MirrorSession {
  import opened Options
  import opened Strings

  /** What a ref holds: nothing, a live object, or one closed or disposed. */
  datatype Handle = Absent | Live | Closed

  /** `close()` or `dispose()` through an optional ref. */
  function Release(h: Handle): (r: Handle)
    ensures r != Live
    ensures h != Live ==> r == h
  {
    if h == Live then Closed else h
  }

  /** The window's state: the three React state values and the two refs. */
  datatype Mirror = Mirror(loading: bool, error: Option<string>, warning: bool,
                           client: Handle, decoder: Handle)

  const DefaultError: string := "Failed to start mirroring"
  const FetchError: string := "Failed to fetch scrcpy-server.jar"
  const PermissionMarker: string := "INJECT_EVENTS permission"

  /** The synchronous start of `startMirroring`. */
  function Begin(m: Mirror): (r: Mirror)
    ensures r.loading && r.error == None && !r.warning
    ensures r.client == m.client && r.decoder == m.decoder
  {
    m.(loading := true, error := None, warning := false)
  }

  /** The effect cleanup: close the client and dispose the decoder the refs hold. */
  function Cleanup(m: Mirror): (r: Mirror)
    ensures r.client != Live && r.decoder != Live
    ensures r.loading == m.loading && r.error == m.error && r.warning == m.warning
  {
    m.(client := Release(m.client), decoder := Release(m.decoder))
  }

  /** The message shown for a failure: the error's message, or the default
      when it has none. */
  function ErrorText(message: string): (t: string)
    ensures |t| > 0
    ensures message != "" ==> t == message
  {
    if message == "" then DefaultError else message
  }

  /** The `catch` block: only an active attempt reports its failure. */
  function Catch(m: Mirror, active: bool, message: string): (r: Mirror)
    ensures !active ==> r == m
    ensures active ==> r == m.(error := Some(ErrorText(message)), loading := false)
  {
    if active then m.(error := Some(ErrorText(message)), loading := false) else m
  }

  /** A line of the server's log output. */
  function LogLine(m: Mirror, line: string): (r: Mirror)
    ensures r.warning <==> m.warning || exists i :: OccursAt(line, PermissionMarker, i)
    ensures r == m.(warning := r.warning)
  {
    IncludesIffOccurs(line, PermissionMarker);
    if Includes(line, PermissionMarker) then m.(warning := true) else m
  }

  /** The close button on the warning banner. */
  function Dismiss(m: Mirror): (r: Mirror)
    ensures !r.warning && r == m.(warning := false)
  {
    m.(warning := false)
  }

  /** `permissionWarning && !error`: an error hides the warning banner. */
  predicate ShowsBanner(m: Mirror) {
    m.warning && m.error.None?
  }

  // ---------------------------------------------------------------------------
  // One start attempt
  // ---------------------------------------------------------------------------

  datatype FetchOutcome = Fetched | NotOk | FetchThrew(message: string)
  datatype Outcome = Ok | Fail(message: string)

  /** How `await client.videoStream` and the set-up after it ended: a
      stream the decoder was created for, no stream, or a failure (the
      promise rejected, or the renderer or decoder constructor threw) that
      reaches the `catch` before any decoder is stored. */
  datatype VideoOutcome = Stream | NoStream | VideoFailed(message: string)

  /** What the device steps returned: downloading the server jar, pushing it,
      starting the server, and the video stream. */
  datatype BootIO = BootIO(fetch: FetchOutcome, push: Outcome, start: Outcome, video: VideoOutcome)

  /** The awaits an attempt can be interrupted at. */
  datatype Await = DuringFetch | DuringPush | DuringStart | DuringVideo

  /** The cleanup runs while the attempt waits at `at`; `restart` says the
      next attempt starts right after it. */
  datatype Interrupt = Interrupt(at: Await, restart: bool)

  /** The cleanup, followed on a retry by the next attempt's start. */
  function Interrupted(m: Mirror, restart: bool): (r: Mirror)
    ensures r.client != Live && r.decoder != Live
    ensures r.error == (if restart then None else m.error)
    ensures r.loading == (restart || m.loading)
  {
    var c := Cleanup(m);
    if restart then Begin(c) else c
  }

  /** The state and `active` flag once the attempt resumes from `here`. */
  function Resume(m: Mirror, active: bool, here: Await, interrupt: Option<Interrupt>): (Mirror, bool)
  {
    if interrupt.Some? && interrupt.value.at == here then (Interrupted(m, interrupt.value.restart), false)
    else (m, active)
  }

  /** `startMirroring` up to `await client.videoStream`, the part both
      versions below share. `AtVideo` carries the state and `active` flag on
      reaching the video await; `Done` is the final state of an attempt that
      ended earlier. */
  datatype Reached = Done(final: Mirror) | AtVideo(m: Mirror, active: bool)

  function UpToVideo(m0: Mirror, io: BootIO, interrupt: Option<Interrupt>): Reached {
    var begun := Begin(m0);
    var (m1, a1) := Resume(begun, true, DuringFetch, interrupt);
    match io.fetch
    case NotOk => Done(Catch(m1, a1, FetchError))
    case FetchThrew(msg) => Done(Catch(m1, a1, msg))
    case Fetched =>
      if !a1 then Done(m1)
      else
        var (m2, a2) := Resume(m1, a1, DuringPush, interrupt);
        match io.push
        case Fail(msg) => Done(Catch(m2, a2, msg))
        case Ok =>
          var (m3, a3) := Resume(m2, a2, DuringStart, interrupt);
          match io.start
          case Fail(msg) => Done(Catch(m3, a3, msg))
          case Ok =>
            var withClient := m3.(client := Live);
            if !a3 then Done(withClient.(client := Closed))
            else AtVideo(withClient, a3)
  }

  /** The rest of `startMirroring` as written: after the video await there is
      no `active` check, so a stale attempt still creates a decoder, stores it
      in the ref and clears `loading`. */
  function AttemptAsWritten(m0: Mirror, io: BootIO, interrupt: Option<Interrupt>): (r: Mirror)
    ensures !r.warning
    ensures interrupt.Some? && interrupt.value.at == DuringVideo && Reaches(io, DuringVideo) ==>
      !io.video.VideoFailed? ==> !r.loading && r.client == Closed && (io.video.Stream? ==> r.decoder == Live)
  {
    match UpToVideo(m0, io, interrupt)
    case Done(r) => r
    case AtVideo(m4, a4) =>
      var (m5, a5) := Resume(m4, a4, DuringVideo, interrupt);
      match io.video
      case VideoFailed(msg) => Catch(m5, a5, msg)
      case Stream => m5.(decoder := Live, loading := false)
      case NoStream => m5.(loading := false)
  }

  /** The attempt with the `active` check the other awaits have: a stale
      attempt stops once the video stream arrives. */
  function Attempt(m0: Mirror, io: BootIO, interrupt: Option<Interrupt>): (r: Mirror)
    ensures !r.warning
    ensures r.loading ==> interrupt.Some? && Reaches(io, interrupt.value.at)
    ensures r.error.Some? ==> interrupt.None? || !Reaches(io, interrupt.value.at)
  {
    match UpToVideo(m0, io, interrupt)
    case Done(r) => r
    case AtVideo(m4, a4) =>
      var (m5, a5) := Resume(m4, a4, DuringVideo, interrupt);
      if !a5 then m5
      else
        match io.video
        case VideoFailed(msg) => Catch(m5, a5, msg)
        case Stream => m5.(decoder := Live, loading := false)
        case NoStream => m5.(loading := false)
  }

  /** The message of the first step that fails, if any. */
  function FirstFailure(io: BootIO): Option<string> {
    if io.fetch.NotOk? then Some(FetchError)
    else if io.fetch.FetchThrew? then Some(io.fetch.message)
    else if io.push.Fail? then Some(io.push.message)
    else if io.start.Fail? then Some(io.start.message)
    else if io.video.VideoFailed? then Some(io.video.message)
    else None
  }

  /** An attempt nobody interrupts stops loading. It either fails with the
      first failing step's message (or the default text), storing no decoder,
      or ends with a live client, no error, and a live decoder when there is
      a video stream. Once the server has started the client stays live, even
      when the video set-up then fails. */
  lemma AttemptOutcome(m0: Mirror, io: BootIO)
    ensures var r := Attempt(m0, io, None);
      && !r.loading
      && (FirstFailure(io).Some? ==> r.error == Some(ErrorText(FirstFailure(io).value)) && r.decoder == m0.decoder)
      && (FirstFailure(io).None? ==>
            && r.error == None && r.client == Live
            && (io.video.Stream? ==> r.decoder == Live)
            && (io.video.NoStream? ==> r.decoder == m0.decoder))
      && (Reaches(io, DuringVideo) ==> r.client == Live)
      && !r.warning
  {
  }

  /** The attempt gets as far as the await `at`: every earlier step succeeded. */
  predicate Reaches(io: BootIO, at: Await) {
    match at
    case DuringFetch => true
    case DuringPush => io.fetch.Fetched?
    case DuringStart => io.fetch.Fetched? && io.push.Ok?
    case DuringVideo => io.fetch.Fetched? && io.push.Ok? && io.start.Ok?
  }

  /** An attempt interrupted at an await it reaches changes nothing after the
      cleanup: no error is reported, `loading` stays set, and it leaves
      neither client nor decoder live. */
  lemma InterruptedAttemptIsSilent(m0: Mirror, io: BootIO, at: Await, restart: bool)
    requires Reaches(io, at)
    ensures var r := Attempt(m0, io, Some(Interrupt(at, restart)));
      r.error == None && r.loading && r.client != Live && r.decoder != Live
  {
  }

  /** The code as written is just as silent when the interruption comes at
      the fetch, push or start await. */
  lemma InterruptedAsWrittenIsSilent(m0: Mirror, io: BootIO, at: Await, restart: bool)
    requires Reaches(io, at) && at != DuringVideo
    ensures var r := AttemptAsWritten(m0, io, Some(Interrupt(at, restart)));
      r.error == None && r.loading && r.client != Live && r.decoder != Live
  {
    AttemptAgreesAsWritten(m0, io, Some(Interrupt(at, restart)));
    InterruptedAttemptIsSilent(m0, io, at, restart);
  }

  /** Without the check, an attempt whose window is closed while it waits for
      the video stream creates a decoder nothing ever disposes, and on a retry
      it clears the next attempt's `loading` flag. */
  lemma StaleAttemptLeaksDecoder(m0: Mirror)
    ensures var io := BootIO(Fetched, Ok, Ok, Stream);
      var r := AttemptAsWritten(m0, io, Some(Interrupt(DuringVideo, true)));
      r.decoder == Live && !r.loading && r != Attempt(m0, io, Some(Interrupt(DuringVideo, true)))
  {
  }

  /** Apart from a stale attempt resuming after the video await, the two
      versions agree. */
  lemma AttemptAgreesAsWritten(m0: Mirror, io: BootIO, interrupt: Option<Interrupt>)
    requires interrupt.None? || interrupt.value.at != DuringVideo
    ensures Attempt(m0, io, interrupt) == AttemptAsWritten(m0, io, interrupt)
  {
  }

  /** Cleanup is idempotent. */
  lemma CleanupIdempotent(m: Mirror)
    ensures Cleanup(Cleanup(m)) == Cleanup(m)
  {
  }

  /** A failure hides the permission banner, and so does any attempt's start;
      a log line raises it only when no error is shown. */
  lemma BannerRules(m: Mirror, line: string, message: string)
    ensures !ShowsBanner(Catch(m, true, message))
    ensures !ShowsBanner(Begin(m))
    ensures ShowsBanner(LogLine(m, line)) <==>
      m.error.None? && (m.warning || exists i :: OccursAt(line, PermissionMarker, i))
  {
  }
}
