/** The unlock flow of the unlock screen (`unlockMagnet` and its
    `checkStatus` poll): upload the magnet; if AllDebrid already has it
    cached, list its files at once; otherwise poll its status once per tick,
    up to 30 attempts, and list the files when it is ready.

    The timer is modelled as a strictly sequential series of ticks, each
    with the outcome of its one status call and of the listing it would make
    if the magnet were ready. An exception thrown inside the interval
    callback is never caught: the tick ends, the interval is not cleared and
    the next tick polls again. */
module UnlockFlow {
  import opened Js
  import opened JsString
  import opened AllDebrid

  const MaxAttempts := 30
  const TimeoutMessage := "Timeout waiting for cache. Try again later."
  const UnlockFailed := "Failed to unlock magnet"

  /** Where the flow is: uploading, polling (the interval is running), or one
      of the three ends. */
  datatype Phase = Uploading | Polling | Done | TimedOut | Failed

  /** What one tick of the interval sees: its status call, and the listing
      it makes when that call says the magnet is ready. */
  datatype Tick = Tick(status: Result<MagnetInfo>, listing: Result<seq<UnlockedFile>>)

  /** The screen state the flow writes: the status line, the video files,
      the error line, and the attempt counter. */
  datatype Screen = Screen(phase: Phase, attempts: nat, status: string, files: seq<UnlockedFile>, error: Option<string>)

  const Initial := Screen(Uploading, 0, "Uploading magnet...", [], None)

  function FoundText(count: nat): string
  {
    "Found " + Show(count) + " video file(s)"
  }

  /** The status line of a tick that keeps polling; an absent status code is
      rendered as `undefined`. */
  function CachingText(attempts: nat, code: Option<int>): string
  {
    "Caching... (" + Show(attempts) + "/" + Show(MaxAttempts) + ") - Status: "
      + (if code.Some? then Show(code.value) else "undefined")
  }

  /** `e.message || 'Failed to unlock magnet'`. */
  function FailureText(message: string): (r: string)
    ensures r != ""
    ensures message != "" ==> r == message
  {
    if message == "" then UnlockFailed else message
  }

  /** The state after `unlockMagnet` has run up to the start of polling. */
  function AfterUpload(s: Screen, upload: Result<MagnetInfo>, listing: Result<seq<UnlockedFile>>): (r: Screen)
    requires s.phase == Uploading
    ensures r.phase in {Polling, Done, Failed}
    ensures r.phase == Polling <==> upload.Ok? && !upload.value.ready
    ensures r.phase == Polling ==> r.attempts == 0 && r.error == s.error && r.files == s.files
                                   && r.status == "Waiting for AllDebrid to cache..."
    ensures r.phase == Done <==> upload.Ok? && upload.value.ready && listing.Ok?
    ensures r.phase == Done ==> r.files == GetVideoFiles(listing.value) && r.error == s.error
                                && r.status == FoundText(|r.files|)
    ensures r.phase == Failed ==> r.error.Some? && r.error.value != "" && r.files == s.files
    ensures upload.Err? ==> r.error == Some(FailureText(upload.message))
    ensures upload.Ok? && upload.value.ready && listing.Err? ==> r.error == Some(FailureText(listing.message))
  {
    var s := s.(status := "Uploading magnet to AllDebrid...");
    match upload
    case Err(msg) => s.(phase := Failed, error := Some(FailureText(msg)))
    case Ok(info) =>
      if info.ready then
        var s := s.(status := "Fetching files...");
        match listing
        case Err(msg) => s.(phase := Failed, error := Some(FailureText(msg)))
        case Ok(all) =>
          var videos := GetVideoFiles(all);
          s.(phase := Done, files := videos, status := FoundText(|videos|))
      else
        s.(phase := Polling, attempts := 0, status := "Waiting for AllDebrid to cache...")
  }

  /** One run of `checkStatus`: count the attempt, make the status call, then
      test readiness before the bound. A failing status call or listing
      throws out of the callback: the attempt stays counted and polling goes
      on. */
  function AfterTick(s: Screen, t: Tick): (r: Screen)
    requires s.phase == Polling
    ensures r.attempts == s.attempts + 1
    ensures r.phase in {Polling, Done, TimedOut}
    ensures r.phase == Done <==> t.status.Ok? && t.status.value.ready && t.listing.Ok?
    ensures r.phase == TimedOut <==> t.status.Ok? && !t.status.value.ready && r.attempts >= MaxAttempts
    ensures r.phase == Done ==> r.files == GetVideoFiles(t.listing.value) && r.error == s.error
                                && r.status == FoundText(|r.files|)
    ensures r.phase == Polling ==> r.error == s.error && r.files == s.files
    ensures r.phase == TimedOut ==> r.error == Some(TimeoutMessage) && r.status == s.status && r.files == s.files
    ensures t.status.Err? ==> r == s.(attempts := s.attempts + 1)
    ensures t.status.Ok? && t.status.value.ready && t.listing.Err? ==>
              r == s.(attempts := s.attempts + 1, status := "Fetching files...")
    ensures t.status.Ok? && !t.status.value.ready && r.attempts < MaxAttempts ==>
              r.status == CachingText(r.attempts, t.status.value.statusCode)
  {
    var s := s.(attempts := s.attempts + 1);
    match t.status
    case Err(_) => s
    case Ok(current) =>
      if current.ready then
        var s := s.(status := "Fetching files...");
        match t.listing
        case Err(_) => s
        case Ok(all) =>
          var videos := GetVideoFiles(all);
          s.(phase := Done, files := videos, status := FoundText(|videos|))
      else if s.attempts >= MaxAttempts then
        s.(phase := TimedOut, error := Some(TimeoutMessage))
      else
        s.(status := CachingText(s.attempts, current.statusCode))
  }

  /** Feeding ticks to the poll until it stops: the final state and the
      number of status calls made. */
  function Run(s: Screen, ticks: seq<Tick>): (r: (Screen, nat))
    ensures r.1 <= |ticks|
    decreases |ticks|
  {
    if s.phase != Polling || ticks == [] then (s, 0)
    else
      var r := Run(AfterTick(s, ticks[0]), ticks[1..]);
      (r.0, r.1 + 1)
  }

  /** A stopped flow takes no calls; each call counts one attempt; the
      poll only stops before the ticks run out by ending; and a poll never
      ends in failure. */
  lemma {:induction false} RunShape(s: Screen, ticks: seq<Tick>)
    ensures s.phase != Polling ==> Run(s, ticks) == (s, 0)
    ensures s.phase == Polling ==> Run(s, ticks).0.attempts == s.attempts + Run(s, ticks).1
    ensures Run(s, ticks).1 < |ticks| ==> Run(s, ticks).0.phase != Polling
    ensures s.phase == Polling ==> Run(s, ticks).0.phase in {Polling, Done, TimedOut}
    decreases |ticks|
  {
    if s.phase == Polling && ticks != [] {
      RunShape(AfterTick(s, ticks[0]), ticks[1..]);
    }
  }

  /** No status call follows the tick that ends the poll: once the ticks
      given have stopped it, more ticks change nothing. */
  lemma {:induction false} NoCallAfterStop(s: Screen, ticks: seq<Tick>, more: seq<Tick>)
    requires Run(s, ticks).0.phase != Polling
    ensures Run(s, ticks + more) == Run(s, ticks)
    decreases |ticks|
  {
    if s.phase == Polling {
      assert ticks != [];
      var next := AfterTick(s, ticks[0]);
      var all := ticks + more;
      assert all[0] == ticks[0] && all[1..] == ticks[1..] + more;
      var r := Run(next, ticks[1..]);
      assert Run(s, ticks) == (r.0, r.1 + 1);
      NoCallAfterStop(next, ticks[1..], more);
      assert Run(s, all) == (r.0, r.1 + 1);
    }
  }

  /** A tick is conclusive when its status call succeeds and, if the magnet
      is ready, so does the listing. */
  predicate Conclusive(t: Tick)
  {
    t.status.Ok? && (t.status.value.ready ==> t.listing.Ok?)
  }

  /** With conclusive ticks the poll ends, done or timed out, after at most
      the attempts left before the bound. */
  lemma {:induction false} ConclusivePollIsBounded(s: Screen, ticks: seq<Tick>)
    requires s.phase == Polling && s.attempts < MaxAttempts
    requires |ticks| >= MaxAttempts - s.attempts
    requires forall i :: 0 <= i < |ticks| ==> Conclusive(ticks[i])
    ensures Run(s, ticks).0.phase in {Done, TimedOut}
    ensures Run(s, ticks).1 <= MaxAttempts - s.attempts
    decreases MaxAttempts - s.attempts
  {
    var s' := AfterTick(s, ticks[0]);
    assert Conclusive(ticks[0]);
    if s'.phase == Polling {
      ConclusivePollIsBounded(s', ticks[1..]);
    }
  }

  /** The ticks of a status that never becomes ready. */
  predicate NotReady(t: Tick)
  {
    t.status.Ok? && !t.status.value.ready
  }

  /** Thirty not-ready replies from the start of polling time the flow out,
      after exactly thirty status calls, with the timeout message. */
  lemma {:induction false} ThirtyNotReadyTimesOut(s: Screen, ticks: seq<Tick>)
    requires s.phase == Polling && s.attempts < MaxAttempts
    requires |ticks| >= MaxAttempts - s.attempts
    requires forall i :: 0 <= i < |ticks| ==> NotReady(ticks[i])
    ensures Run(s, ticks).0.phase == TimedOut
    ensures Run(s, ticks).1 == MaxAttempts - s.attempts
    ensures Run(s, ticks).0.error == Some(TimeoutMessage)
    decreases MaxAttempts - s.attempts
  {
    assert NotReady(ticks[0]);
    if s.attempts + 1 < MaxAttempts {
      ThirtyNotReadyTimesOut(AfterTick(s, ticks[0]), ticks[1..]);
    }
  }

  /** `k` not-ready replies followed by a ready one, with the bound not yet
      reached, list the files on call `k + 1`. */
  lemma {:induction false} ReadyAfterWaiting(s: Screen, ticks: seq<Tick>, k: nat)
    requires s.phase == Polling && s.attempts + k < MaxAttempts
    requires k < |ticks|
    requires forall i :: 0 <= i < k ==> NotReady(ticks[i])
    requires ticks[k].status.Ok? && ticks[k].status.value.ready && ticks[k].listing.Ok?
    ensures Run(s, ticks).0.phase == Done
    ensures Run(s, ticks).1 == k + 1
    ensures Run(s, ticks).0.files == GetVideoFiles(ticks[k].listing.value)
    ensures Run(s, ticks).0.error == s.error
    ensures Run(s, ticks).0.status == FoundText(|GetVideoFiles(ticks[k].listing.value)|)
    decreases k
  {
    if k > 0 {
      assert NotReady(ticks[0]);
      ReadyAfterWaiting(AfterTick(s, ticks[0]), ticks[1..], k - 1);
    }
  }

  /** Readiness is tested before the bound: a ready reply on the thirtieth
      attempt lists the files instead of timing out. */
  lemma ReadyOnLastAttemptLists(s: Screen, t: Tick)
    requires s.phase == Polling && s.attempts == MaxAttempts - 1
    requires t.status.Ok? && t.status.value.ready && t.listing.Ok?
    ensures AfterTick(s, t).phase == Done
    ensures AfterTick(s, t).attempts == MaxAttempts
  {
  }

  /** Status calls that keep failing never end the poll, and the counter
      runs past the bound. */
  lemma {:induction false} FailingStatusKeepsPolling(s: Screen, ticks: seq<Tick>)
    requires s.phase == Polling
    requires forall i :: 0 <= i < |ticks| ==> ticks[i].status.Err?
    ensures Run(s, ticks).0.phase == Polling
    ensures Run(s, ticks).1 == |ticks|
    ensures Run(s, ticks).0.attempts == s.attempts + |ticks|
    decreases |ticks|
  {
    if ticks != [] {
      FailingStatusKeepsPolling(AfterTick(s, ticks[0]), ticks[1..]);
    }
  }

  /** The unlock screen's flow, as the mutable state its callbacks update. */
  class UnlockSession {
    var phase: Phase
    var attempts: nat
    var status: string
    var files: seq<UnlockedFile>
    var error: Option<string>

    function View(): Screen
      reads this
    {
      Screen(phase, attempts, status, files, error)
    }

    constructor ()
      ensures View() == Initial
    {
      phase, attempts, status, files, error := Uploading, 0, "Uploading magnet...", [], None;
    }

    /** `unlockMagnet` up to starting the interval: the upload outcome, and
        the listing outcome used when the magnet is already cached. */
    method UnlockMagnet(upload: Result<MagnetInfo>, listing: Result<seq<UnlockedFile>>)
      requires phase == Uploading
      modifies this
      ensures View() == AfterUpload(old(View()), upload, listing)
      ensures upload.Ok? && upload.value.ready ==> phase != Polling && attempts == old(attempts)
    {
      status := "Uploading magnet to AllDebrid...";
      match upload {
        case Err(msg) =>
          error := Some(FailureText(msg));
          phase := Failed;
        case Ok(info) =>
          if info.ready {
            status := "Fetching files...";
            match listing {
              case Err(msg) =>
                error := Some(FailureText(msg));
                phase := Failed;
              case Ok(all) =>
                var videos := GetVideoFiles(all);
                files := videos;
                status := FoundText(|videos|);
                phase := Done;
            }
          } else {
            status := "Waiting for AllDebrid to cache...";
            attempts := 0;
            phase := Polling;
          }
      }
    }

    /** `checkStatus`, returning whether the interval is to be cleared. A
        tick whose calls throw returns nothing; the callback then never
        clears the interval, which is `done == false`. */
    method CheckStatus(t: Tick) returns (done: bool)
      requires phase == Polling
      modifies this
      ensures View() == AfterTick(old(View()), t)
      ensures attempts == old(attempts) + 1
      ensures done <==> phase != Polling
    {
      attempts := attempts + 1;
      if t.status.Err? {
        return false;
      }
      var current := t.status.value;
      if current.ready {
        status := "Fetching files...";
        if t.listing.Err? {
          return false;
        }
        var videos := GetVideoFiles(t.listing.value);
        files := videos;
        status := FoundText(|videos|);
        phase := Done;
        return true;
      }
      if attempts >= MaxAttempts {
        error := Some(TimeoutMessage);
        phase := TimedOut;
        return true;
      }
      status := CachingText(attempts, current.statusCode);
      return false;
    }

    /** The interval: one `checkStatus` per tick, each after the previous one
        completed, until a tick reports done or the ticks run out. Returns
        the number of status calls made. */
    method Poll(ticks: seq<Tick>) returns (calls: nat)
      requires phase == Polling
      modifies this
      ensures (View(), calls) == Run(old(View()), ticks)
    {
      calls := 0;
      var done := false;
      while calls < |ticks| && !done
        invariant calls <= |ticks|
        invariant done <==> phase != Polling
        invariant Run(old(View()), ticks) == (Run(View(), ticks[calls..]).0, calls + Run(View(), ticks[calls..]).1)
        decreases |ticks| - calls
      {
        assert ticks[calls..][1..] == ticks[calls + 1..];
        done := CheckStatus(ticks[calls]);
        calls := calls + 1;
      }
    }
  }
}
