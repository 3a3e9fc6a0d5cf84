/** The interaction layer of index.js: drag-to-play over the grid with
    each tile sounding once per gesture, Shift-sustain, the panic button,
    and the axis tiles that play their line as a chord (Shift-click) or,
    on a second click within the arming window, as an arpeggio. Timers
    are not run here: a method that would schedule a noteOff returns the
    delay, and the firing of a timer is a method of its own. */
module Gesture {
  import opened Seqs
  import opened Octave
  import opened Audio
  import opened InlineAudio
  import opened Diamond

  /** A grid cell's reduced ratio num/den, as its tile carries it. */
  datatype Cell = Cell(num: int, den: int)

  /** A playable tile: a cell of positive terms. */
  type Tile = c: Cell | c.num >= 1 && c.den >= 1 witness Cell(1, 1)

  predicate IsKey(k: Ratio) {
    k.num >= 1 && k.den >= 1
  }

  /** The page's controls and the browser at the moment of a call. */
  datatype Env = Env(
    b: Browser,          // what ensureAudio meets
    mode: LabelMode,     // the label mode, which decides the voice key
    refHz: real,         // the reference frequency of 1/1
    attackMs: real,      // the attack control
    releaseMs: real,     // the release control
    hasTarget: bool,     // the gain parameter offers setTargetAtTime
    now: real)           // the audio context's current time

  function TileKey(mode: LabelMode, t: Tile): (k: Ratio)
    ensures IsKey(k)
  {
    NoteKeyFor(mode, t.num, t.den)
  }

  /** The frequency a dragged tile sounds (rtof of ratioFor). */
  function TileFreq(env: Env, t: Tile): real
  {
    env.refHz * RatioFor(env.mode, t.num, t.den)
  }

  /** The frequency a line chord or arpeggio sounds for a key, read back
      from the key's fraction. */
  function KeyFreq(env: Env, k: Ratio): real
    requires IsKey(k)
  {
    env.refHz * RatioFor(env.mode, k.num, k.den)
  }

  /** Reading the pitch back from a tile's key gives the tile's own pitch,
      so a chord and a drag sound a tile alike. */
  lemma KeyFreqMatchesTile(env: Env, t: Tile)
    ensures KeyFreq(env, TileKey(env.mode, t)) == TileFreq(env, t)
  {
    if env.mode == Norm {
      var k := TileKey(env.mode, t);
      FoldFracMatchesFoldReal(t.num, t.den);
      assert Value(k) == k.num as real / k.den as real;
      assert 1.0 <= Value(k) < 2.0 by {
        FracFacts(k.num, k.den);
        assert k.den as real <= k.num as real < 2.0 * k.den as real;
      }
    }
  }

  /** The delay after which a played, unsustained note is released: the
      release control, at least 10 ms, plus 40 ms. */
  function ReleaseDelay(releaseMs: real): (d: real)
    ensures d >= 50.0 && d >= releaseMs + 40.0
    ensures releaseMs >= 10.0 ==> d == releaseMs + 40.0
  {
    MaxReal(10.0, releaseMs) + 40.0
  }

  function MinReal(a: real, b: real): (r: real)
    ensures r <= a && r <= b && (r == a || r == b)
  {
    if a <= b then a else b
  }

  /** The arpeggio step from the time between the two axis clicks,
      clamped to 40..1200 ms. */
  function StepMs(elapsed: real): (s: real)
    ensures 40.0 <= s <= 1200.0
    ensures 40.0 <= elapsed <= 1200.0 ==> s == elapsed
    ensures elapsed < 40.0 ==> s == 40.0
    ensures elapsed > 1200.0 ==> s == 1200.0
  {
    MaxReal(40.0, MinReal(1200.0, elapsed))
  }

  /** The arpeggio's timer interval for a requested step: a zero step
      means 120 ms, and the result is clamped to 40..1200 ms. */
  function ArpIntervalMs(stepMs: real): (ms: real)
    ensures 40.0 <= ms <= 1200.0
    ensures stepMs == 0.0 ==> ms == 120.0
    ensures 40.0 <= stepMs <= 1200.0 ==> ms == stepMs
  {
    MaxReal(40.0, MinReal(1200.0, if stepMs == 0.0 then 120.0 else stepMs))
  }

  /** The arpeggio an axis's second click starts runs at exactly the step
      measured between the clicks: the second clamp changes nothing. */
  lemma ArpeggioKeepsStep(elapsed: real)
    ensures ArpIntervalMs(StepMs(elapsed)) == StepMs(elapsed)
  {
  }

  /** The voice keys of a line's cells, in cell order, duplicates kept. */
  function CellKeys(mode: LabelMode, cells: seq<Tile>): (ks: seq<Ratio>)
    ensures |ks| == |cells|
    ensures forall i :: 0 <= i < |cells| ==> ks[i] == TileKey(mode, cells[i])
  {
    if cells == [] then []
    else CellKeys(mode, cells[..|cells| - 1]) + [TileKey(mode, cells[|cells| - 1])]
  }

  /** How a tile trigger ends. */
  datatype TileOutcome =
    | NoTile                               // no tile under the pointer
    | Repeat                               // the key already sounded in this gesture
    | Failed(key: Ratio)                   // noteOn threw: neither sustained nor released
    | Sustained(key: Ratio)                // Shift held: the key joins the sustained set
    | ReleaseAfter(key: Ratio, ms: real)   // a noteOff for key is due after ms

  /** What a tile trigger reads and changes: the keys sounded in the
      gesture, the sustained keys, the engine's lifecycle and its voices. */
  datatype Snapshot = Snapshot(touched: set<Ratio>, sustain: seq<Ratio>, eng: Engine,
                               voices: map<Ratio, InlineVoice>)

  datatype Triggered = Triggered(out: TileOutcome, after: Snapshot)

  /** Whether noteOn for key throws once ensureAudio has left the engine e:
      a context exists but its master gain was never made. */
  predicate Throws(e: Engine, voices: map<Ratio, InlineVoice>, k: Ratio) {
    e.ctx.Some? && !e.master && k !in voices
  }

  /** triggerTile on values, Shift held or not. The key is marked as
      sounded before noteOn; a noteOn that throws ends the trigger there,
      so the key is neither sustained nor scheduled for release. */
  function TriggerSpec(tile: Option<Tile>, env: Env, shift: bool, s: Snapshot): (r: Triggered)
    // no tile, or a key already sounded in this gesture: nothing changes
    ensures tile.None? ==> r == Triggered(NoTile, s)
    ensures tile.Some? && TileKey(env.mode, tile.value) in s.touched ==> r == Triggered(Repeat, s)
    // otherwise the key is marked, and ensureAudio runs once
    ensures tile.Some? && TileKey(env.mode, tile.value) !in s.touched ==>
      var k := TileKey(env.mode, tile.value);
      var e := Ensure(s.eng, env.b).after;
      r.after.touched == s.touched + {k} && r.after.eng == e
      && (r.out.Failed? <==> Throws(e, s.voices, k))
      && (Throws(e, s.voices, k) ==> r.out == Failed(k) && r.after.sustain == s.sustain)
      && (!Throws(e, s.voices, k) && shift ==> r.out == Sustained(k))
      && (!Throws(e, s.voices, k) && !shift ==> r.out == ReleaseAfter(k, ReleaseDelay(env.releaseMs)))
      // a voice starts exactly when audio is up and the key is silent
      && (k in r.after.voices && k !in s.voices <==> e.ctx.Some? && e.master && k !in s.voices)
    // only the trigger's own key joins the sustained set, and only with Shift
    ensures forall k :: k in r.after.sustain <==> k in s.sustain || (r.out.Sustained? && k == r.out.key)
    ensures r.out.Sustained? ==> shift
    ensures NoDuplicates(s.sustain) ==> NoDuplicates(r.after.sustain)
    // sounding voices are never disturbed, and at most the one key starts
    ensures forall k :: k in s.voices ==> k in r.after.voices && r.after.voices[k] == s.voices[k]
    ensures forall k :: k in r.after.voices && k !in s.voices ==>
      tile.Some? && k == TileKey(env.mode, tile.value)
      && r.after.voices[k] == NewInlineVoice(TileFreq(env, tile.value), env.attackMs, env.hasTarget, env.now)
  {
    if tile.None? then Triggered(NoTile, s)
    else
      var k := TileKey(env.mode, tile.value);
      if k in s.touched then Triggered(Repeat, s)
      else
        var touched := s.touched + {k};
        var e := Ensure(s.eng, env.b).after;
        if Throws(e, s.voices, k) then Triggered(Failed(k), Snapshot(touched, s.sustain, e, s.voices))
        else
          var voices := if e.ctx.Some? && e.master && k !in s.voices
                        then s.voices[k := NewInlineVoice(TileFreq(env, tile.value), env.attackMs, env.hasTarget, env.now)]
                        else s.voices;
          if shift then Triggered(Sustained(k), Snapshot(touched, Added(s.sustain, k), e, voices))
          else Triggered(ReleaseAfter(k, ReleaseDelay(env.releaseMs)), Snapshot(touched, s.sustain, e, voices))
  }

  /** Within one gesture a tile sounds once: triggering it again, whatever
      the controls and the browser do meanwhile, is a Repeat that changes
      nothing. */
  lemma TriggerOncePerGesture(tile: Tile, env: Env, env': Env, shift: bool, shift': bool, s: Snapshot)
    requires env'.mode == env.mode
    ensures var r := TriggerSpec(Some(tile), env, shift, s);
      TriggerSpec(Some(tile), env', shift', r.after) == Triggered(Repeat, r.after)
  {
  }

  /** An axis tile's arming state. */
  datatype AxisState = Idle | Armed(at: real)

  /** The arming window in milliseconds: a first click arms its axis for
      this long. */
  const ArmWindowMs: real := 2000.0

  /** What a click on an axis tile does. */
  datatype AxisAction =
    | Chord(keys: seq<Ratio>)                    // Shift-click: the line sounds at once, sustained
    | Arm(windowMs: real)                        // first click: the axis is armed, disarmed after windowMs
    | Arpeggio(keys: seq<Ratio>, stepMs: real)   // second click: the line is played note by note

  class GestureController {
    const engine: InlineEngine
    var shift: bool
    /** sustainKeys, in insertion order. */
    var sustain: seq<Ratio>
    var active: bool
    var pointerId: Option<int>
    /** The keys sounded during the current gesture. */
    var touched: set<Ratio>
    /** The arming state of each axis tile, by tile. */
    var axes: map<int, AxisState>

    ghost predicate Valid()
      reads this, engine
    {
      engine.Valid() && NoDuplicates(sustain) && (active <==> pointerId.Some?)
    }

    /** The part of the state a tile trigger reads and changes. */
    ghost function State(): Snapshot
      reads this, engine
    {
      Snapshot(touched, sustain, Engine(engine.ctx, engine.master), engine.active)
    }

    constructor(e: InlineEngine)
      requires e.Valid()
      ensures Valid() && engine == e
      ensures !shift && sustain == [] && !active && pointerId.None? && touched == {} && axes == map[]
    {
      engine := e;
      shift := false;
      sustain := [];
      active := false;
      pointerId := None;
      touched := {};
      axes := map[];
    }

    method ShiftDown()
      requires Valid()
      modifies this
      ensures Valid() && shift
      ensures sustain == old(sustain) && active == old(active) && pointerId == old(pointerId)
      ensures touched == old(touched) && axes == old(axes)
    {
      shift := true;
    }

    /** Releasing Shift releases every sustained note. */
    method ShiftUp(now: real)
      requires Valid()
      modifies this, engine
      ensures Valid() && !shift && sustain == []
      ensures forall k :: k in engine.active <==> k in old(engine.active) && k !in old(sustain)
      ensures forall k :: k in engine.active ==> engine.active[k] == old(engine.active)[k]
      ensures engine.ctx == old(engine.ctx) && engine.master == old(engine.master)
      ensures active == old(active) && pointerId == old(pointerId)
      ensures touched == old(touched) && axes == old(axes)
    {
      shift := false;
      ReleaseSustained(now);
    }

    /** releaseSustained: a noteOff for each sustained key, which then
        leaves the set. */
    method ReleaseSustained(now: real)
      requires Valid()
      modifies this, engine
      ensures Valid() && sustain == []
      ensures forall k :: k in engine.active <==> k in old(engine.active) && k !in old(sustain)
      ensures forall k :: k in engine.active ==> engine.active[k] == old(engine.active)[k]
      ensures engine.ctx == old(engine.ctx) && engine.master == old(engine.master)
      ensures shift == old(shift) && active == old(active) && pointerId == old(pointerId)
      ensures touched == old(touched) && axes == old(axes)
    {
      var ks := sustain;
      var i := 0;
      while i < |ks|
        invariant 0 <= i <= |ks| && Valid()
        invariant sustain == ks[i..]
        invariant forall k :: k in engine.active <==> k in old(engine.active) && k !in ks[..i]
        invariant forall k :: k in engine.active ==> engine.active[k] == old(engine.active)[k]
        invariant engine.ctx == old(engine.ctx) && engine.master == old(engine.master)
        invariant shift == old(shift) && active == old(active) && pointerId == old(pointerId)
        invariant touched == old(touched) && axes == old(axes)
      {
        ReleaseFirst(now);
        assert ks[i..][1..] == ks[i + 1..];
        assert ks[..i + 1] == ks[..i] + [ks[i]];
        i := i + 1;
      }
    }

    /** One turn of releaseSustained: noteOff for the first sustained key,
        which then leaves the set. */
    method ReleaseFirst(now: real)
      requires Valid() && sustain != []
      modifies this, engine
      ensures Valid() && sustain == old(sustain)[1..]
      ensures forall k :: k in engine.active <==> k in old(engine.active) && k != old(sustain)[0]
      ensures forall k :: k in engine.active ==> engine.active[k] == old(engine.active)[k]
      ensures engine.ctx == old(engine.ctx) && engine.master == old(engine.master)
      ensures shift == old(shift) && active == old(active) && pointerId == old(pointerId)
      ensures touched == old(touched) && axes == old(axes)
    {
      var k := sustain[0];
      var _ := engine.NoteOff(k, now);
      RemoveHead(sustain);
      sustain := Remove(sustain, k);
    }

    /** The panic button: stopAll on the engine, whose hook then releases
        the sustained keys. Everything falls silent. */
    method Panic(now: real)
      requires Valid()
      modifies this, engine
      ensures Valid() && engine.active == map[] && sustain == []
      ensures engine.ctx == old(engine.ctx) && engine.master == old(engine.master)
      ensures shift == old(shift) && active == old(active) && pointerId == old(pointerId)
      ensures touched == old(touched) && axes == old(axes)
    {
      var _ := engine.StopAll(now);
      ReleaseSustained(now);
      assert engine.active.Keys == {};
    }

    /** triggerTile: sound the tile under the pointer unless its key already
        sounded in this gesture; hold it while Shift is down, otherwise
        schedule its release. */
    method TriggerTile(tile: Option<Tile>, env: Env) returns (out: TileOutcome)
      requires Valid()
      modifies this, engine
      ensures Valid()
      ensures Triggered(out, State()) == TriggerSpec(tile, env, shift, old(State()))
      ensures shift == old(shift) && active == old(active) && pointerId == old(pointerId)
      ensures axes == old(axes)
    {
      if tile.None? {
        return NoTile;
      }
      var t := tile.value;
      var k := TileKey(env.mode, t);
      if k in touched {
        return Repeat;
      }
      touched := touched + {k};
      var res, _ := engine.NoteOn(k, TileFreq(env, t), env.attackMs, env.hasTarget, env.b, env.now);
      if res == Threw {
        return Failed(k);
      }
      if shift {
        sustain := Added(sustain, k);
        out := Sustained(k);
      } else {
        out := ReleaseAfter(k, ReleaseDelay(env.releaseMs));
      }
    }

    /** A release timer firing: noteOff for the key. */
    method ReleaseTimer(k: Ratio, now: real)
      requires Valid()
      modifies engine
      ensures Valid()
      ensures engine.active == old(engine.active) - {k}
      ensures engine.ctx == old(engine.ctx) && engine.master == old(engine.master)
    {
      var _ := engine.NoteOff(k, now);
      assert engine.active == old(engine.active) - {k};
    }

    /** pointerdown on the stage: a new gesture for this pointer, sounding
        the tile under it. A press on an axis tile is left to the axis. */
    method PointerDown(pid: int, onAxis: bool, tile: Option<Tile>, env: Env)
      returns (out: TileOutcome)
      requires Valid()
      modifies this, engine
      ensures Valid()
      ensures shift == old(shift) && axes == old(axes)
      ensures onAxis ==>
        out == NoTile && State() == old(State())
        && active == old(active) && pointerId == old(pointerId)
      ensures !onAxis ==>
        active && pointerId == Some(pid) && !out.Repeat?
        && Triggered(out, State()) == TriggerSpec(tile, env, shift, old(State()).(touched := {}))
    {
      if onAxis {
        return NoTile;
      }
      active := true;
      pointerId := Some(pid);
      touched := {};
      out := TriggerTile(tile, env);
    }

    /** The capture-phase listener every pointerdown and keydown meets
        first: ensureAudio unless a running context exists. Skipping the
        call when the context runs leaves the engine as the call would. */
    method GestureResume(b: Browser) returns (shown: Option<Banner>)
      requires Valid()
      modifies engine
      ensures Valid()
      ensures Engine(engine.ctx, engine.master) == Ensure(Engine(old(engine.ctx), old(engine.master)), b).after
      ensures shown.None? <==> old(engine.ctx) == Some(Running)
      ensures shown.Some? ==> shown.value == Ensure(Engine(old(engine.ctx), old(engine.master)), b).banner
      ensures engine.active == old(engine.active)
    {
      if engine.ctx.None? || engine.ctx.value != Running {
        var _, banner := engine.EnsureAudio(b);
        return Some(banner);
      }
      shown := None;
    }

    /** The viewport's own pointerdown listener, which runs after the
        stage's: a press that leaves the pinch tracker holding exactly one
        touch or pen pointer ends the gesture. */
    method ViewportPointerDown(pinchPoints: nat)
      requires Valid()
      modifies this
      ensures Valid()
      ensures pinchPoints == 1 ==>
        !active && pointerId.None? && touched == (if old(active) then {} else old(touched))
      ensures pinchPoints != 1 ==>
        active == old(active) && pointerId == old(pointerId) && touched == old(touched)
      ensures sustain == old(sustain) && shift == old(shift) && axes == old(axes)
    {
      if pinchPoints == 1 {
        EndGesture();
      }
    }

    /** A whole pointerdown on the stage as the browser dispatches it: the
        capture-phase resume, the stage's handler, then the viewport's
        listener. pinchPoints is the number of touch and pen pointers the
        pinch tracker holds once it has recorded this press; a mouse adds
        none. A single finger therefore ends its own gesture after the
        first tile. */
    method Press(pid: int, onAxis: bool, tile: Option<Tile>, env: Env, pinchPoints: nat)
      returns (out: TileOutcome)
      requires Valid()
      modifies this, engine
      ensures Valid()
      ensures shift == old(shift) && axes == old(axes)
      ensures var e := Ensure(Engine(old(engine.ctx), old(engine.master)), env.b).after;
        var r := TriggerSpec(tile, env, shift, old(State()).(eng := e, touched := {}));
        !onAxis ==>
          out == r.out && sustain == r.after.sustain
          && Engine(engine.ctx, engine.master) == r.after.eng && engine.active == r.after.voices
          && (pinchPoints == 1 ==> !active && pointerId.None? && touched == {})
          && (pinchPoints != 1 ==> active && pointerId == Some(pid) && touched == r.after.touched)
      ensures onAxis ==>
        out == NoTile && sustain == old(sustain) && engine.active == old(engine.active)
        && Engine(engine.ctx, engine.master) == Ensure(Engine(old(engine.ctx), old(engine.master)), env.b).after
        && (pinchPoints == 1 ==> !active && pointerId.None? && touched == (if old(active) then {} else old(touched)))
        && (pinchPoints != 1 ==> active == old(active) && pointerId == old(pointerId) && touched == old(touched))
    {
      var _ := GestureResume(env.b);
      out := PointerDown(pid, onAxis, tile, env);
      ViewportPointerDown(pinchPoints);
    }

    /** Press as the viewport listener evidently means it: the gesture ends
        when a second touch pointer arrives and a pinch begins, so a single
        finger keeps dragging. */
    method PressIntended(pid: int, onAxis: bool, tile: Option<Tile>, env: Env, pinchPoints: nat)
      returns (out: TileOutcome)
      requires Valid()
      modifies this, engine
      ensures Valid()
      ensures shift == old(shift) && axes == old(axes)
      ensures var e := Ensure(Engine(old(engine.ctx), old(engine.master)), env.b).after;
        var r := TriggerSpec(tile, env, shift, old(State()).(eng := e, touched := {}));
        !onAxis ==>
          out == r.out && sustain == r.after.sustain
          && Engine(engine.ctx, engine.master) == r.after.eng && engine.active == r.after.voices
          && (pinchPoints == 2 ==> !active && pointerId.None? && touched == {})
          && (pinchPoints != 2 ==> active && pointerId == Some(pid) && touched == r.after.touched)
      ensures onAxis ==>
        out == NoTile && sustain == old(sustain) && engine.active == old(engine.active)
        && Engine(engine.ctx, engine.master) == Ensure(Engine(old(engine.ctx), old(engine.master)), env.b).after
        && (pinchPoints == 2 ==> !active && pointerId.None? && touched == (if old(active) then {} else old(touched)))
        && (pinchPoints != 2 ==> active == old(active) && pointerId == old(pointerId) && touched == old(touched))
    {
      var _ := GestureResume(env.b);
      out := PointerDown(pid, onAxis, tile, env);
      if pinchPoints == 2 {
        EndGesture();
      }
    }

    /** A keydown: the capture-phase resume, then Shift is held when the
        key is Shift. */
    method KeyDown(isShift: bool, b: Browser)
      requires Valid()
      modifies this, engine
      ensures Valid()
      ensures Engine(engine.ctx, engine.master) == Ensure(Engine(old(engine.ctx), old(engine.master)), b).after
      ensures engine.active == old(engine.active)
      ensures shift == (old(shift) || isShift)
      ensures sustain == old(sustain) && active == old(active) && pointerId == old(pointerId)
      ensures touched == old(touched) && axes == old(axes)
    {
      var _ := GestureResume(b);
      if isShift {
        ShiftDown();
      }
    }

    /** pointermove: extend the gesture of the same pointer. */
    method PointerMove(pid: int, tile: Option<Tile>, env: Env) returns (out: TileOutcome)
      requires Valid()
      modifies this, engine
      ensures Valid()
      ensures active == old(active) && pointerId == old(pointerId)
      ensures shift == old(shift) && axes == old(axes)
      ensures old(active) && old(pointerId) == Some(pid) ==>
        Triggered(out, State()) == TriggerSpec(tile, env, shift, old(State()))
      ensures !(old(active) && old(pointerId) == Some(pid)) ==>
        out == NoTile && State() == old(State())
    {
      if !active || pointerId != Some(pid) {
        return NoTile;
      }
      out := TriggerTile(tile, env);
    }

    /** pointerup or pointercancel: end the gesture of the same pointer. */
    method PointerEnd(pid: int)
      requires Valid()
      modifies this
      ensures Valid()
      ensures old(active) && old(pointerId) == Some(pid) ==> !active && pointerId.None? && touched == {}
      ensures !(old(active) && old(pointerId) == Some(pid)) ==>
        active == old(active) && pointerId == old(pointerId) && touched == old(touched)
      ensures sustain == old(sustain) && shift == old(shift) && axes == old(axes)
    {
      if active && pointerId == Some(pid) {
        EndGesture();
      }
    }

    /** endGesture: forget the gesture and the keys it sounded. */
    method EndGesture()
      requires Valid()
      modifies this
      ensures Valid() && !active && pointerId.None?
      ensures old(active) ==> touched == {}
      ensures !old(active) ==> touched == old(touched)
      ensures sustain == old(sustain) && shift == old(shift) && axes == old(axes)
    {
      if !active {
        return;
      }
      active := false;
      pointerId := None;
      touched := {};
    }

    /** uniqueKeysFromCells: the distinct voice keys of a line's cells, in
        the order of their first cell. */
    method UniqueKeys(mode: LabelMode, cells: seq<Tile>) returns (keys: seq<Ratio>)
      ensures keys == Dedup(CellKeys(mode, cells))
      ensures NoDuplicates(keys)
      ensures forall k :: k in keys <==> k in CellKeys(mode, cells)
      ensures forall k :: k in keys ==> IsKey(k)
    {
      var ks := CellKeys(mode, cells);
      keys := DedupBySeen(ks);
      DedupElements(ks);
      forall k | k in keys
        ensures IsKey(k)
      {
        var j :| 0 <= j < |ks| && ks[j] == k;
      }
    }

    /** Where the noteOns of keys stand once the first i have run, from
        voices a0 and lifecycle e0; threw says whether one of them threw. */
    ghost predicate Sounding(a0: map<Ratio, InlineVoice>, e0: Engine, keys: seq<Ratio>, i: nat,
                             env: Env, threw: bool)
      reads this, engine
    {
      var e := Ensure(e0, env.b).after;
      i <= |keys| && Valid()
      && Engine(engine.ctx, engine.master) == EnsureTimes(e0, env.b, i)
      && (threw <==> i > 0 && e.ctx.Some? && !e.master)
      && (!(e.ctx.Some? && e.master) ==> engine.active == a0)
      && (e.ctx.Some? && e.master ==> forall k :: k in engine.active <==> k in a0 || k in keys[..i])
      && (forall k :: k in a0 ==> k in engine.active && engine.active[k] == a0[k])
      && (forall k :: k in engine.active && k !in a0 ==>
            k in keys && IsKey(k)
            && engine.active[k] == NewInlineVoice(KeyFreq(env, k), env.attackMs, env.hasTarget, env.now))
    }

    /** One noteOn per key, each reading its pitch back from the key. Once
        audio is up with its graph every key sounds; with a context but no
        master gain every noteOn throws. */
    method SoundKeys(keys: seq<Ratio>, env: Env) returns (threw: bool)
      requires Valid() && forall k :: k in keys ==> IsKey(k)
      modifies engine
      ensures Valid()
      ensures Engine(engine.ctx, engine.master)
        == EnsureTimes(Engine(old(engine.ctx), old(engine.master)), env.b, |keys|)
      ensures var e := Ensure(Engine(old(engine.ctx), old(engine.master)), env.b).after;
        (threw <==> keys != [] && e.ctx.Some? && !e.master)
        && (!(e.ctx.Some? && e.master) ==> engine.active == old(engine.active))
        && (e.ctx.Some? && e.master ==>
              forall k :: k in engine.active <==> k in old(engine.active) || k in keys)
      ensures forall k :: k in old(engine.active) ==>
        k in engine.active && engine.active[k] == old(engine.active)[k]
      ensures forall k :: k in engine.active && k !in old(engine.active) ==>
        k in keys && IsKey(k)
        && engine.active[k] == NewInlineVoice(KeyFreq(env, k), env.attackMs, env.hasTarget, env.now)
    {
      ghost var a0 := engine.active;
      ghost var e0 := Engine(engine.ctx, engine.master);
      threw := false;
      for i := 0 to |keys|
        invariant Sounding(a0, e0, keys, i, env, threw)
      {
        var res, _ := engine.NoteOn(keys[i], KeyFreq(env, keys[i]), env.attackMs, env.hasTarget, env.b, env.now);
        threw := threw || res == Threw;
        assert keys[..i + 1] == keys[..i] + [keys[i]];
      }
      assert keys[..|keys|] == keys;
    }

    /** noteOff for each key, as the chord's release timer does. */
    method ReleaseKeys(keys: seq<Ratio>, now: real)
      requires Valid()
      modifies engine
      ensures Valid()
      ensures forall k :: k in engine.active <==> k in old(engine.active) && k !in keys
      ensures forall k :: k in engine.active ==> engine.active[k] == old(engine.active)[k]
      ensures engine.ctx == old(engine.ctx) && engine.master == old(engine.master)
    {
      for i := 0 to |keys|
        invariant Valid()
        invariant forall k :: k in engine.active <==> k in old(engine.active) && k !in keys[..i]
        invariant forall k :: k in engine.active ==> engine.active[k] == old(engine.active)[k]
        invariant engine.ctx == old(engine.ctx) && engine.master == old(engine.master)
      {
        ReleaseTimer(keys[i], now);
        assert keys[..i + 1] == keys[..i] + [keys[i]];
      }
      assert keys[..|keys|] == keys;
    }

    /** Add each key to the sustained set. */
    method SustainAll(keys: seq<Ratio>)
      requires Valid()
      modifies this
      ensures Valid()
      ensures forall k :: k in sustain <==> k in old(sustain) || k in keys
      ensures shift == old(shift) && active == old(active) && pointerId == old(pointerId)
      ensures touched == old(touched) && axes == old(axes)
    {
      for i := 0 to |keys|
        invariant Valid()
        invariant forall k :: k in sustain <==> k in old(sustain) || k in keys[..i]
        invariant shift == old(shift) && active == old(active) && pointerId == old(pointerId)
        invariant touched == old(touched) && axes == old(axes)
      {
        sustain := Added(sustain, keys[i]);
        assert keys[..i + 1] == keys[..i] + [keys[i]];
      }
      assert keys[..|keys|] == keys;
    }

    /** playChord: sound every distinct key of a line together; with sustain
        the keys join the sustained set, otherwise their release is due
        after the release delay. When the noteOns throw, neither happens. */
    method PlayChord(cells: seq<Tile>, hold: bool, env: Env)
      returns (keys: seq<Ratio>, releaseMs: Option<real>, threw: bool)
      requires Valid()
      modifies this, engine
      ensures Valid()
      ensures keys == Dedup(CellKeys(env.mode, cells))
      // ensureAudio runs once, then once more per noteOn
      ensures Engine(engine.ctx, engine.master)
        == EnsureTimes(Engine(old(engine.ctx), old(engine.master)), env.b, 1 + |keys|)
      ensures var e := Ensure(Engine(old(engine.ctx), old(engine.master)), env.b).after;
        (threw <==> keys != [] && e.ctx.Some? && !e.master)
        && (!(e.ctx.Some? && e.master) ==> engine.active == old(engine.active))
        && (e.ctx.Some? && e.master ==>
              forall k :: k in engine.active <==> k in old(engine.active) || k in keys)
      ensures forall k :: k in old(engine.active) ==>
        k in engine.active && engine.active[k] == old(engine.active)[k]
      ensures forall k :: k in engine.active && k !in old(engine.active) ==>
        k in keys && IsKey(k)
        && engine.active[k] == NewInlineVoice(KeyFreq(env, k), env.attackMs, env.hasTarget, env.now)
      ensures threw ==> releaseMs.None? && sustain == old(sustain)
      ensures !threw && hold ==>
        releaseMs.None? && forall k :: k in sustain <==> k in old(sustain) || k in keys
      ensures !threw && !hold ==> releaseMs == Some(ReleaseDelay(env.releaseMs)) && sustain == old(sustain)
      ensures shift == old(shift) && active == old(active) && pointerId == old(pointerId)
      ensures touched == old(touched) && axes == old(axes)
    {
      ghost var e0 := Engine(engine.ctx, engine.master);
      keys := UniqueKeys(env.mode, cells);
      var _, _ := engine.EnsureAudio(env.b);
      ghost var e1 := Engine(engine.ctx, engine.master);
      threw := SoundKeys(keys, env);
      EnsureTimesShift(e0, env.b, |keys|);
      assert EnsureTimes(e0, env.b, 1) == e1;
      assert Ensure(e1, env.b).after == EnsureTimes(e0, env.b, 2);
      releaseMs := None;
      if threw {
        return;
      }
      if hold {
        SustainAll(keys);
      } else {
        releaseMs := Some(ReleaseDelay(env.releaseMs));
      }
    }

    /** A click on an axis tile at time now (ms). With Shift the line sounds
        as a sustained chord. Otherwise a first click arms the axis for the
        arming window, and a second click while armed disarms it and starts
        an arpeggio whose step is the time between the clicks. An arming
        time of 0 reads as not armed, as the falsy test on it does. */
    method AxisClick(ax: int, now: real, cells: seq<Tile>, env: Env)
      returns (act: AxisAction, arp: Arpeggiator?)
      requires Valid()
      modifies this, engine
      ensures Valid()
      ensures shift == old(shift) && active == old(active) && pointerId == old(pointerId)
      ensures touched == old(touched)
      ensures old(shift) ==>
        var keys := Dedup(CellKeys(env.mode, cells));
        var e := Ensure(Engine(old(engine.ctx), old(engine.master)), env.b).after;
        act == Chord(keys) && axes == old(axes) && arp == null
        && Engine(engine.ctx, engine.master)
           == EnsureTimes(Engine(old(engine.ctx), old(engine.master)), env.b, 1 + |keys|)
        && (!(e.ctx.Some? && e.master) ==> engine.active == old(engine.active))
        && (e.ctx.Some? && e.master ==>
              forall k :: k in engine.active <==> k in old(engine.active) || k in keys)
        && (keys != [] && e.ctx.Some? && !e.master ==> sustain == old(sustain))
        && (!(keys != [] && e.ctx.Some? && !e.master) ==>
              forall k :: k in sustain <==> k in old(sustain) || k in keys)
      ensures old(shift) ==>
        (forall k :: k in old(engine.active) ==>
           k in engine.active && engine.active[k] == old(engine.active)[k])
        && (forall k :: k in engine.active && k !in old(engine.active) ==>
              k in Dedup(CellKeys(env.mode, cells)) && IsKey(k)
              && engine.active[k] == NewInlineVoice(KeyFreq(env, k), env.attackMs, env.hasTarget, env.now))
      ensures !old(shift) && (ax !in old(axes) || old(axes)[ax].Idle? || old(axes)[ax].at == 0.0) ==>
        act == Arm(ArmWindowMs) && axes == old(axes)[ax := Armed(now)] && arp == null
        && sustain == old(sustain) && engine.active == old(engine.active)
        && engine.ctx == old(engine.ctx) && engine.master == old(engine.master)
      ensures !old(shift) && ax in old(axes) && old(axes)[ax].Armed? && old(axes)[ax].at != 0.0 ==>
        act == Arpeggio(Dedup(CellKeys(env.mode, cells)), StepMs(now - old(axes)[ax].at))
        && axes == old(axes)[ax := Idle]
        && arp != null && fresh(arp) && arp.Valid()
        && arp.keys == act.keys && arp.next == 0
        && arp.intervalMs == StepMs(now - old(axes)[ax].at)
        && sustain == old(sustain) && engine.active == old(engine.active)
        && Engine(engine.ctx, engine.master) == Ensure(Engine(old(engine.ctx), old(engine.master)), env.b).after
    {
      arp := null;
      if shift {
        var keys, _, _ := PlayChord(cells, true, env);
        return Chord(keys), null;
      }
      var st := if ax in axes then axes[ax] else Idle;
      if st.Idle? || st.at == 0.0 {
        axes := axes[ax := Armed(now)];
        return Arm(ArmWindowMs), null;
      }
      var step := StepMs(now - st.at);
      axes := axes[ax := Idle];
      var keys;
      keys, arp := PlayArpeggio(cells, step, env);
      ArpeggioKeepsStep(now - st.at);
      act := Arpeggio(keys, step);
    }

    /** playArpeggio: the distinct keys of a line, sounded one per tick of a
        timer whose interval is the requested step. */
    method PlayArpeggio(cells: seq<Tile>, stepMs: real, env: Env)
      returns (keys: seq<Ratio>, arp: Arpeggiator)
      requires Valid()
      modifies engine
      ensures Valid() && fresh(arp) && arp.Valid() && !arp.stopped
      ensures keys == Dedup(CellKeys(env.mode, cells))
      ensures arp.keys == keys && arp.next == 0 && arp.intervalMs == ArpIntervalMs(stepMs)
      ensures engine.active == old(engine.active)
      ensures Engine(engine.ctx, engine.master) == Ensure(Engine(old(engine.ctx), old(engine.master)), env.b).after
    {
      keys := UniqueKeys(env.mode, cells);
      var _, _ := engine.EnsureAudio(env.b);
      arp := new Arpeggiator(keys, ArpIntervalMs(stepMs));
    }

    /** The arming window closing: the axis is idle again. */
    method ArmTimeout(ax: int)
      requires Valid()
      modifies this
      ensures Valid() && axes == old(axes)[ax := Idle]
      ensures sustain == old(sustain) && shift == old(shift) && active == old(active)
      ensures pointerId == old(pointerId) && touched == old(touched)
    {
      axes := axes[ax := Idle];
    }

    /** One tick of an arpeggio's interval timer: sound the next key and
        schedule its release, or stop once every key has sounded. A noteOn
        that throws ends the tick before the release is scheduled. */
    method Tick(arp: Arpeggiator, env: Env) returns (played: Option<Ratio>, releaseMs: Option<real>)
      requires Valid() && arp.Valid()
      modifies engine, arp
      ensures Valid() && arp.Valid()
      ensures old(arp.next) < |arp.keys| ==>
        var k := arp.keys[old(arp.next)];
        var e := Ensure(Engine(old(engine.ctx), old(engine.master)), env.b).after;
        played == Some(k) && arp.next == old(arp.next) + 1 && !arp.stopped
        && Engine(engine.ctx, engine.master) == e
        && IsKey(k)
        && engine.active == (if e.ctx.Some? && e.master && k !in old(engine.active)
                             then old(engine.active)[k := NewInlineVoice(KeyFreq(env, k), env.attackMs, env.hasTarget, env.now)]
                             else old(engine.active))
        && (releaseMs.None? <==> Throws(e, old(engine.active), k))
        && (releaseMs.Some? ==> releaseMs.value == ReleaseDelay(env.releaseMs))
      ensures old(arp.next) >= |arp.keys| ==>
        played.None? && releaseMs.None? && arp.stopped && arp.next == old(arp.next)
        && engine.active == old(engine.active)
        && engine.ctx == old(engine.ctx) && engine.master == old(engine.master)
    {
      if arp.next >= |arp.keys| {
        arp.stopped := true;
        return None, None;
      }
      var k := arp.keys[arp.next];
      arp.next := arp.next + 1;
      assert k in arp.keys;
      var res, _ := engine.NoteOn(k, KeyFreq(env, k), env.attackMs, env.hasTarget, env.b, env.now);
      played := Some(k);
      releaseMs := if res == Threw then None else Some(ReleaseDelay(env.releaseMs));
    }
  }

  /** On a touch screen a drag stops sounding after its first tile: a
      single finger pressed on tile a and moved onto tile b leaves b
      silent, because the press ended the gesture it began. */
  method TouchDragStopsAtFirstTile(e: InlineEngine, a: Tile, b: Tile, env: Env)
    returns (first: TileOutcome, second: TileOutcome)
    requires e.Valid()
    modifies e
    ensures first.ReleaseAfter? || first.Failed?
    ensures second == NoTile
  {
    var g := new GestureController(e);
    first := g.Press(1, false, Some(a), env, 1);
    second := g.PointerMove(1, Some(b), env);
  }

  /** With the intended listener the same finger keeps playing: tile b,
      whose key differs from a's, is triggered in the same gesture. */
  method TouchDragContinues(e: InlineEngine, a: Tile, b: Tile, env: Env)
    returns (first: TileOutcome, second: TileOutcome)
    requires e.Valid()
    modifies e
    ensures first.ReleaseAfter? || first.Failed?
    ensures TileKey(env.mode, b) != TileKey(env.mode, a) ==>
      (second.ReleaseAfter? || second.Failed?) && second.key == TileKey(env.mode, b)
  {
    var g := new GestureController(e);
    first := g.PressIntended(1, false, Some(a), env, 1);
    second := g.PointerMove(1, Some(b), env);
  }

  /** The state of a running playArpeggio: the line's keys, the next to
      sound, and the interval between ticks. */
  class Arpeggiator {
    const keys: seq<Ratio>
    const intervalMs: real
    var next: nat
    var stopped: bool

    ghost predicate Valid()
      reads this
    {
      next <= |keys| && (stopped ==> next == |keys|)
      && NoDuplicates(keys) && (forall k :: k in keys ==> IsKey(k))
      && 40.0 <= intervalMs <= 1200.0
    }

    constructor(ks: seq<Ratio>, ms: real)
      requires NoDuplicates(ks) && (forall k :: k in ks ==> IsKey(k)) && 40.0 <= ms <= 1200.0
      ensures Valid() && keys == ks && intervalMs == ms && next == 0 && !stopped
    {
      keys := ks;
      intervalMs := ms;
      next := 0;
      stopped := false;
    }
  }
}
