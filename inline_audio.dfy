/** The voice registry index.js carries inline. Its ensureAudio takes the
    same steps as the module engine's (only the limiter is missing from
    the graph), so its lifecycle is Audio.Ensure; its voices differ: the
    attack approaches full gain exponentially where the gain parameter
    supports setTargetAtTime, and noteOff silences at once. The page asks
    the registry whether a key sounds only to update a tile's highlight,
    so that query is the module engine's IsNoteActive alone. */
module InlineAudio {
  import opened Seqs
  import opened Octave
  import opened Audio

  /** How a voice's gain reaches full level. */
  datatype Attack =
    | Approach(from: real, timeConst: real)   // setTargetAtTime(1.0, from, timeConst)
    | Jump(at: real)                          // setValueAtTime(1.0, at)

  datatype InlineVoice = InlineVoice(freq: real, attack: Attack)

  /** The time constant of the exponential attack: the attack setting in
      seconds, at least one millisecond. */
  function TimeConstant(attackMs: real): (c: real)
    ensures c >= 0.001
    ensures attackMs >= 1.0 ==> c * 1000.0 == attackMs
    ensures attackMs <= 1.0 ==> c == 0.001
  {
    MaxReal(0.001, AttackSeconds(attackMs))
  }

  /** The voice noteOn starts at context time now; hasTarget says whether
      the gain parameter offers setTargetAtTime. */
  function NewInlineVoice(f: real, attackMs: real, hasTarget: bool, now: real): (v: InlineVoice)
    ensures v.freq == f
    ensures hasTarget <==> v.attack.Approach?
    ensures v.attack.Approach? ==> v.attack.from == now && v.attack.timeConst >= 0.001
    ensures v.attack.Jump? ==> v.attack.at == now
  {
    InlineVoice(f, if hasTarget then Approach(now, TimeConstant(attackMs)) else Jump(now))
  }

  /** The inline noteOff sets the gain to zero and stops the oscillator at
      the current time. */
  datatype Silence = Silence(key: Ratio, at: real)

  class InlineEngine {
    var ctx: Option<CtxState>
    var master: bool
    var active: map<Ratio, InlineVoice>
    /** The keys of active in insertion order. */
    var order: seq<Ratio>

    ghost predicate Valid()
      reads this
    {
      NoDuplicates(order)
      && (forall k :: k in active ==> k in order)
      && (forall k :: k in order ==> k in active)
      && (ctx.None? ==> !master)
      && (order != [] ==> ctx.Some? && master)
    }

    constructor()
      ensures Valid()
      ensures ctx.None? && !master && active == map[] && order == []
    {
      ctx := None;
      master := false;
      active := map[];
      order := [];
    }

    /** ensureAudio, whose steps are those of the module engine's: the
        lifecycle is Audio.Ensure, which Audio.AudioEngine.EnsureAudio
        follows step by step. */
    method EnsureAudio(b: Browser) returns (ret: Option<CtxState>, banner: Banner)
      requires Valid()
      modifies this
      ensures Valid()
      ensures var o := Ensure(Engine(old(ctx), old(master)), b);
        Engine(ctx, master) == o.after && ret == o.ret && banner == o.banner
      ensures active == old(active) && order == old(order)
    {
      var o := Ensure(Engine(ctx, master), b);
      ctx, master := o.after.ctx, o.after.master;
      ret, banner := o.ret, o.banner;
    }

    /** noteOn: make sure a context exists, then start a voice for key unless
        one already sounds. now is the context's current time, or 0 when it
        reports none. */
    method NoteOn(key: Ratio, f: real, attackMs: real, hasTarget: bool, b: Browser, now: real)
      returns (res: NoteOnResult, banner: Banner)
      requires Valid()
      modifies this
      ensures Valid()
      ensures Engine(ctx, master) == Ensure(Engine(old(ctx), old(master)), b).after
      // a started voice hides the banner; otherwise ensureAudio's stays
      ensures banner == (if res == Started then Hidden
                         else Ensure(Engine(old(ctx), old(master)), b).banner)
      ensures res == (if ctx.None? then NoAudio
                      else if key in old(active) then AlreadyOn
                      else if !master then Threw
                      else Started)
      ensures res == Started ==>
        active == old(active)[key := NewInlineVoice(f, attackMs, hasTarget, now)]
        && order == old(order) + [key]
      ensures res != Started ==> active == old(active) && order == old(order)
    {
      var _, shown := EnsureAudio(b);
      if ctx.None? {
        return NoAudio, shown;
      }
      if key in active {
        return AlreadyOn, shown;
      }
      if !master {
        return Threw, shown;
      }
      active := active[key := NewInlineVoice(f, attackMs, hasTarget, now)];
      order := order + [key];
      res, banner := Started, Hidden;
    }

    /** noteOff: silence and forget the voice for key, if there is one. A
        failure while silencing is swallowed; the key is forgotten anyway. */
    method NoteOff(key: Ratio, now: real) returns (r: Option<Silence>)
      requires Valid()
      modifies this
      ensures Valid()
      ensures key in old(active) ==>
        old(ctx).Some?
        && r == Some(Silence(key, now))
        && active == old(active) - {key}
        && order == Remove(old(order), key)
      ensures key !in old(active) ==> r.None? && active == old(active) && order == old(order)
      ensures key !in active
      ensures ctx == old(ctx) && master == old(master)
    {
      if key !in active {
        return None;
      }
      r := Some(Silence(key, now));
      active := active - {key};
      order := Remove(order, key);
    }

    /** stopAll: silence every sounding voice, in the order they started. */
    method StopAll(now: real) returns (silenced: seq<Ratio>)
      requires Valid()
      modifies this
      ensures Valid()
      ensures active == map[] && order == []
      ensures silenced == old(order)
      ensures ctx == old(ctx) && master == old(master)
    {
      var ks := order;
      silenced := [];
      var i := 0;
      while i < |ks|
        invariant 0 <= i <= |ks| && Valid()
        invariant order == ks[i..]
        invariant silenced == ks[..i]
        invariant ctx == old(ctx) && master == old(master)
      {
        RemoveHead(ks[i..]);
        assert ks[i..][1..] == ks[i + 1..];
        var r := NoteOff(ks[i], now);
        silenced := silenced + [r.value.key];
        i := i + 1;
      }
      assert active.Keys == {};
    }
  }
}
