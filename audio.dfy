/** The audio engine of js/modules/audio.js: an AudioContext created on
    first use, a master bus behind a limiter, and a registry of sounding
    voices keyed by note. The browser's behaviour during a call (whether
    it offers a constructor, which step throws, whether resume() is
    granted) and the context clock are parameters. */
module Audio {
  import opened Seqs
  import opened Octave

  /** The states an AudioContext reports. */
  datatype CtxState = Suspended | Running | Closed

  /** Where building the node graph throws, if it does: at the first node
      (the master gain is never made) or at a later one (it is). */
  datatype GraphFault = NoFault | AtMaster | AfterMaster

  /** What the browser does during one ensureAudio call. */
  datatype Browser = Browser(
    hasCtor: bool,          // window.AudioContext or its webkit name exists
    ctorThrows: bool,       // constructing the context throws
    fault: GraphFault,      // where building the graph throws
    startState: CtxState,   // the state a new context starts in
    resumeGranted: bool)    // resume() of a suspended context succeeds

  /** The message the audio banner is left showing, or Hidden. */
  datatype Banner = Hidden | Unsupported | FailedInit | Disabled

  /** The engine's lifecycle state: the context, if one was made, and
      whether the master gain node exists. */
  datatype Engine = Engine(ctx: Option<CtxState>, master: bool)

  /** What one ensureAudio call leaves behind, returns and shows. */
  datatype Ensured = Ensured(after: Engine, ret: Option<CtxState>, banner: Banner)

  function Resumed(s: CtxState, granted: bool): CtxState {
    if s == Suspended && granted then Running else s
  }

  /** ensureAudio: make the context and its graph once, resume it when it
      is suspended, and return it (or nothing when a step fails). */
  function Ensure(e: Engine, b: Browser): (o: Ensured)
    // what it returns is the engine's own context
    ensures o.ret.Some? ==> o.ret == o.after.ctx
    // the banner is hidden exactly when a running context is returned
    ensures o.banner == Hidden <==> o.ret == Some(Running)
    // a context, once made, is never dropped and its graph never rebuilt
    ensures e.ctx.Some? ==> o.after.ctx.Some? && o.after.master == e.master
    // a failed construction leaves nothing behind, so the next call retries
    ensures e.ctx.None? && b.hasCtor && b.ctorThrows ==> o.after == e && o.ret.None?
    // without a constructor nothing happens, even when a context exists
    ensures !b.hasCtor ==> o.after == e && o.ret.None? && o.banner == Unsupported
    // only a granted resume changes an existing context's state
    ensures e.ctx.Some? && o.after.ctx != e.ctx ==>
      b.hasCtor && e.ctx.value == Suspended && b.resumeGranted && o.after.ctx == Some(Running)
  {
    if !b.hasCtor then Ensured(e, None, Unsupported)
    else if e.ctx.None? && b.ctorThrows then Ensured(e, None, FailedInit)
    else if e.ctx.None? && b.fault != NoFault then
      Ensured(Engine(Some(b.startState), b.fault == AfterMaster), None, FailedInit)
    else
      var s := Resumed(if e.ctx.Some? then e.ctx.value else b.startState, b.resumeGranted);
      var m := if e.ctx.Some? then e.master else true;
      Ensured(Engine(Some(s), m), Some(s), if s == Running then Hidden else Disabled)
  }

  /** A graph that failed at its first node is never retried: later calls
      return the context although no master gain exists. */
  lemma GraphFaultIsSticky(b1: Browser, b2: Browser)
    requires b1.hasCtor && !b1.ctorThrows && b1.fault == AtMaster && b2.hasCtor
    ensures var first := Ensure(Engine(None, false), b1);
      first.ret.None? && first.after.ctx.Some?
      && var second := Ensure(first.after, b2);
      second.ret.Some? && !second.after.master
  {
  }

  /** Once a running context with its graph exists, every later call with a
      constructor present returns it unchanged and hides the banner. */
  lemma EnsureStable(b: Browser, m: bool)
    requires b.hasCtor
    ensures Ensure(Engine(Some(Running), m), b) ==
      Ensured(Engine(Some(Running), m), Some(Running), Hidden)
  {
  }

  /** The engine after n ensureAudio calls meeting the same browser, as
      the noteOns of a chord make them one after another. */
  function EnsureTimes(e: Engine, b: Browser, n: nat): (r: Engine)
    // from the first call on, whether a context and a master gain exist
    // no longer changes
    ensures n >= 1 ==>
      (r.ctx.Some? <==> Ensure(e, b).after.ctx.Some?) && r.master == Ensure(e, b).after.master
  {
    if n == 0 then e else Ensure(EnsureTimes(e, b, n - 1), b).after
  }

  /** Repeated calls settle by the second: a context left behind by a
      failed graph is resumed by the next call, and nothing changes after. */
  lemma {:induction false} EnsureSettles(e: Engine, b: Browser, n: nat)
    requires n >= 2
    ensures EnsureTimes(e, b, n) == EnsureTimes(e, b, 2)
  {
    if n > 2 {
      EnsureSettles(e, b, n - 1);
      var x := EnsureTimes(e, b, 2);
      assert Ensure(x, b).after == x;
    }
  }

  /** A first call followed by n more is n + 1 calls. */
  lemma {:induction false} EnsureTimesShift(e: Engine, b: Browser, n: nat)
    ensures EnsureTimes(Ensure(e, b).after, b, n) == EnsureTimes(e, b, n + 1)
  {
    if n > 0 {
      EnsureTimesShift(e, b, n - 1);
    }
  }

  function MaxReal(a: real, b: real): (r: real)
    ensures r >= a && r >= b && (r == a || r == b)
  {
    if a >= b then a else b
  }

  /** A voice's sound: its frequency, the context time its attack starts,
      the time its linear ramp reaches full gain, and its release time in
      seconds. Its gain starts at StartGain. */
  datatype Voice = Voice(freq: real, startTime: real, peakTime: real, rel: real)

  const StartGain: real := 0.0001
  const PeakGain: real := 1.0
  /** The release time stored for any release setting of 0.01 ms or less. */
  const ReleaseFloor: real := 0.00001
  /** The gain a released voice ramps down to. */
  const ReleaseTarget: real := 0.00001

  /** The attack setting in milliseconds as seconds, negatives as zero. */
  function AttackSeconds(ms: real): (s: real)
    ensures s >= 0.0
    ensures ms >= 0.0 ==> s * 1000.0 == ms
    ensures ms <= 0.0 ==> s == 0.0
  {
    MaxReal(0.0, ms) / 1000.0
  }

  /** The release setting in milliseconds as seconds, floored at 0.01 ms. */
  function ReleaseSeconds(ms: real): (s: real)
    ensures s >= ReleaseFloor
    ensures ms >= 0.01 ==> s * 1000.0 == ms
    ensures ms <= 0.01 ==> s == ReleaseFloor
  {
    MaxReal(0.01, ms) / 1000.0
  }

  /** The voice noteOn starts at context time now. */
  function NewVoice(f: real, attackMs: real, releaseMs: real, now: real): (v: Voice)
    ensures v.freq == f && v.startTime == now && v.peakTime >= now
    ensures (v.peakTime - now) * 1000.0 == MaxReal(0.0, attackMs)
    ensures v.rel >= ReleaseFloor
  {
    Voice(f, now, now + AttackSeconds(attackMs), ReleaseSeconds(releaseMs))
  }

  /** The length of the fade noteOff gives a voice with release time rel:
      at least 50 ms, and 0.25 s when rel is zero. */
  function FadeSeconds(rel: real): (d: real)
    ensures d >= 0.05
    ensures rel != 0.0 ==> d >= rel && (d == rel || d == 0.05)
    ensures rel == 0.0 ==> d == 0.25
  {
    MaxReal(0.05, if rel == 0.0 then 0.25 else rel)
  }

  /** For every voice the engine starts, the fade is the release setting
      floored at 50 ms: the 0.25 s fallback never applies and the 0.01 ms
      floor never shows. */
  lemma FadeOfNewVoice(f: real, attackMs: real, releaseMs: real, now: real)
    ensures FadeSeconds(NewVoice(f, attackMs, releaseMs, now).rel) ==
      MaxReal(0.05, releaseMs / 1000.0)
  {
    var rel := ReleaseSeconds(releaseMs);
    if releaseMs < 0.01 {
      assert rel == ReleaseFloor;
    }
  }

  /** The gain schedule noteOff gives a voice: from now, ramp to
      ReleaseTarget and stop the oscillator at `until`. */
  datatype Release = Release(key: Ratio, from: real, until: real, target: real)

  function ReleaseOf(key: Ratio, v: Voice, now: real): Release
  {
    Release(key, now, now + FadeSeconds(v.rel), ReleaseTarget)
  }

  /** A released voice fades for at least 50 ms and for at least its own
      release time, toward ReleaseTarget. */
  lemma ReleaseBounds(key: Ratio, v: Voice, now: real)
    requires v.rel >= ReleaseFloor
    ensures var r := ReleaseOf(key, v, now);
      r.key == key && r.from == now && r.target == ReleaseTarget
      && r.until >= now + 0.05 && r.until >= now + v.rel
  {
  }

  /** The releases of the voices of keys ks, in the order of ks. */
  function ReleasesOf(ks: seq<Ratio>, a: map<Ratio, Voice>, now: real): seq<Release>
    requires forall k :: k in ks ==> k in a
  {
    if ks == [] then []
    else ReleasesOf(ks[..|ks| - 1], a, now) + [ReleaseOf(ks[|ks| - 1], a[ks[|ks| - 1]], now)]
  }

  /** ReleasesOf releases each key's own voice, position by position. */
  lemma {:induction false} ReleasesOfAt(ks: seq<Ratio>, a: map<Ratio, Voice>, now: real)
    requires forall k :: k in ks ==> k in a
    ensures |ReleasesOf(ks, a, now)| == |ks|
    ensures forall j :: 0 <= j < |ks| ==> ReleasesOf(ks, a, now)[j] == ReleaseOf(ks[j], a[ks[j]], now)
  {
    if ks != [] {
      var init := ks[..|ks| - 1];
      assert forall k :: k in init ==> k in ks;
      ReleasesOfAt(init, a, now);
    }
  }

  /** How a noteOn call ends. */
  datatype NoteOnResult =
    | NoAudio      // no context exists after ensureAudio
    | AlreadyOn    // the key already sounds; nothing changes
    | Threw        // connecting to a missing master gain throws
    | Started      // a new voice sounds

  class AudioEngine {
    var ctx: Option<CtxState>
    var master: bool
    var active: map<Ratio, Voice>
    /** The keys of active in insertion order, the order a JavaScript Map
        iterates in. */
    var order: seq<Ratio>

    ghost predicate Valid()
      reads this
    {
      NoDuplicates(order)
      && (forall k :: k in active ==> k in order)
      && (forall k :: k in order ==> k in active)
      && (forall k :: k in active ==> active[k].rel >= ReleaseFloor)
      && (ctx.None? ==> !master)
      && (order != [] ==> ctx.Some? && master)
    }

    constructor()
      ensures Valid()
      ensures ctx.None? && !master && active == map[] && order == []
    {
      ctx := None;
      master := false;
      active := map[];
      order := [];
    }

    method EnsureAudio(b: Browser) returns (ret: Option<CtxState>, banner: Banner)
      requires Valid()
      modifies this
      ensures Valid()
      ensures var o := Ensure(Engine(old(ctx), old(master)), b);
        Engine(ctx, master) == o.after && ret == o.ret && banner == o.banner
      ensures active == old(active) && order == old(order)
    {
      if !b.hasCtor {
        return None, Unsupported;
      }
      if ctx.None? {
        if b.ctorThrows {
          return None, FailedInit;
        }
        ctx := Some(b.startState);
        if b.fault == AtMaster {
          return None, FailedInit;
        }
        master := true;
        if b.fault == AfterMaster {
          return None, FailedInit;
        }
      }
      if ctx.value == Suspended && b.resumeGranted {
        ctx := Some(Running);
      }
      ret := ctx;
      banner := if ctx.value == Running then Hidden else Disabled;
    }

    /** noteOn: make sure a context exists, then start a voice for key unless
        one already sounds. now is the context's current time. */
    method NoteOn(key: Ratio, f: real, attackMs: real, releaseMs: real, b: Browser, now: real)
      returns (res: NoteOnResult, banner: Banner)
      requires Valid()
      modifies this
      ensures Valid()
      ensures Engine(ctx, master) == Ensure(Engine(old(ctx), old(master)), b).after
      // a started voice hides the banner; otherwise ensureAudio's stays
      ensures banner == (if res == Started then Hidden
                         else Ensure(Engine(old(ctx), old(master)), b).banner)
      ensures res == (if ctx.None? then NoAudio
                      else if key in old(active) then AlreadyOn
                      else if !master then Threw
                      else Started)
      ensures res == Started ==>
        active == old(active)[key := NewVoice(f, attackMs, releaseMs, now)]
        && order == old(order) + [key]
      ensures res != Started ==> active == old(active) && order == old(order)
    {
      var _, shown := EnsureAudio(b);
      if ctx.None? {
        return NoAudio, shown;
      }
      if key in active {
        return AlreadyOn, shown;
      }
      if !master {
        return Threw, shown;
      }
      active := active[key := NewVoice(f, attackMs, releaseMs, now)];
      order := order + [key];
      res, banner := Started, Hidden;
    }

    /** noteOff: fade out and forget the voice for key, if there is one. A
        voice only exists while a context does, so reading its clock is safe. */
    method NoteOff(key: Ratio, now: real) returns (r: Option<Release>)
      requires Valid()
      modifies this
      ensures Valid()
      ensures key in old(active) ==>
        old(ctx).Some?
        && r == Some(ReleaseOf(key, old(active)[key], now))
        && active == old(active) - {key}
        && order == Remove(old(order), key)
      ensures key !in old(active) ==> r.None? && active == old(active) && order == old(order)
      ensures key !in active
      ensures ctx == old(ctx) && master == old(master)
    {
      if key !in active {
        return None;
      }
      r := Some(ReleaseOf(key, active[key], now));
      active := active - {key};
      order := Remove(order, key);
    }

    /** stopAll: release every sounding voice, in the order they started. */
    method StopAll(now: real) returns (rels: seq<Release>)
      requires Valid()
      modifies this
      ensures Valid()
      ensures active == map[] && order == []
      ensures |rels| == |old(order)|
      ensures forall j :: 0 <= j < |rels| ==>
        rels[j] == ReleaseOf(old(order)[j], old(active)[old(order)[j]], now)
      ensures ctx == old(ctx) && master == old(master)
    {
      ghost var a0 := active;
      ghost var done: seq<Ratio> := [];
      rels := [];
      while order != []
        invariant Stopping(old(order), done, a0, rels, now)
        invariant ctx == old(ctx) && master == old(master)
        decreases |order|
      {
        var r := StopNext(old(order), done, a0, rels, now);
        done := done + [r.key];
        rels := rels + [r];
      }
      assert active.Keys == {};
      assert done == old(order);
      ReleasesOfAt(done, a0, now);
    }

    /** Where stopAll stands once the keys done, the first of the keys ks
        the engine held when it began with voices a0, are released. */
    ghost predicate Stopping(ks: seq<Ratio>, done: seq<Ratio>, a0: map<Ratio, Voice>,
                             rels: seq<Release>, now: real)
      reads this
    {
      Valid()
      && ks == done + order
      && (forall k :: k in ks ==> k in a0)
      && (forall k :: k in active ==> active[k] == a0[k])
      && rels == ReleasesOf(done, a0, now)
    }

    /** One turn of stopAll's loop: noteOff for the next key. */
    method StopNext(ghost ks: seq<Ratio>, ghost done: seq<Ratio>, ghost a0: map<Ratio, Voice>,
                    ghost rels: seq<Release>, now: real) returns (r: Release)
      requires order != [] && Stopping(ks, done, a0, rels, now)
      modifies this
      ensures r.key == old(order)[0] && order == old(order)[1..]
      ensures Stopping(ks, done + [r.key], a0, rels + [r], now)
      ensures ctx == old(ctx) && master == old(master)
    {
      var k := order[0];
      ghost var rest := order[1..];
      RemoveHead(order);
      assert k in ks;
      var o := NoteOff(k, now);
      r := o.value;
      assert ks == (done + [k]) + rest;
      assert (done + [k])[..|done|] == done;
    }

    /** isNoteActive: whether a voice for key sounds. */
    function IsNoteActive(key: Ratio): (b: bool)
      reads this
      requires Valid()
      ensures b <==> key in order
    {
      key in active
    }

    /** getActiveNoteCount: how many voices sound, one per started and not
        yet released key. */
    function ActiveNoteCount(): (n: nat)
      reads this
      requires Valid()
      ensures n == |order|
      ensures n == 0 <==> active == map[]
    {
      DistinctCount(order);
      assert active.Keys == set k | k in order;
      |active|
    }
  }
}
