/**
  The U-Boot environment in two copies: storing writes the copy that is not current, falls back to
  the current one when that fails, and switches over. Writes may fail or be cut short by a crash.
 */
module RedundantEnv {
  import opened Bits

  type Image = seq<Byte>

  /** A copy with a matching checksum, or one without. */
  datatype Copy = Complete(image: Image, obsolete: bool) | Broken

  datatype Env = Env(copies: seq<Copy>, current: nat) {
    predicate Valid() { |copies| == 2 && current < 2 }

    function Other(): nat { if current != 0 then 0 else 1 }

    /** The current copy is complete and holds this image. */
    predicate Holds(image: Image)
      requires Valid()
    {
      copies[current].Complete? && copies[current].image == image
    }
  }

  /** How one device write goes: fully, with an error return, or not to its end. `left` is what
      the copy looks like afterwards. */
  datatype WriteFault = Works | Fails(ret: int, left: Copy) | Crashes(left: Copy)

  /** How setting the obsolete flag goes; the flag is not covered by the checksum. */
  datatype FlagFault = FlagWorks | FlagFails(ret: int, flag: bool) | FlagCrashes(flag: bool)

  datatype Faults = Faults(first: WriteFault, second: WriteFault, flag: FlagFault) {
    function Count(): nat {
      (if first.Works? then 0 else 1) + (if second.Works? then 0 else 1) + (if flag.FlagWorks? then 0 else 1)
    }
  }

  datatype Config = Config(redundant: bool, booleanFlags: bool, size: int) {
    predicate Valid() { size > 0 }
  }

  datatype Outcome = Outcome(env: Env, ret: int, crashed: bool)

  // ---------------------------------------------------------------------------
  // One device access
  // ---------------------------------------------------------------------------

  /** A write that does not run to its end leaves the old copy, a broken one, or the new one. */
  predicate Plausible(was: Copy, image: Image, f: WriteFault, size: int) {
    match f
    case Works => true
    case Fails(ret, left) => ret != size && (left == was || left.Broken? || left == Complete(image, false))
    case Crashes(left) => left == was || left.Broken? || left == Complete(image, false)
  }

  function WriteTo(env: Env, i: nat, image: Image, f: WriteFault, size: int): Outcome
    requires i < |env.copies|
  {
    match f
    case Works => Outcome(env.(copies := env.copies[i := Complete(image, false)]), size, false)
    case Fails(ret, left) => Outcome(env.(copies := env.copies[i := left]), ret, false)
    case Crashes(left) => Outcome(env.(copies := env.copies[i := left]), size, true)
  }

  function Flagged(c: Copy, flag: bool): Copy {
    match c
    case Complete(image, _) => Complete(image, flag)
    case Broken => Broken
  }

  function FlagOn(env: Env, i: nat, f: FlagFault): Outcome
    requires i < |env.copies|
  {
    match f
    case FlagWorks => Outcome(env.(copies := env.copies[i := Flagged(env.copies[i], true)]), 0, false)
    case FlagFails(ret, flag) => Outcome(env.(copies := env.copies[i := Flagged(env.copies[i], flag)]), ret, false)
    case FlagCrashes(flag) => Outcome(env.(copies := env.copies[i := Flagged(env.copies[i], flag)]), 0, true)
  }

  // ---------------------------------------------------------------------------
  // Storing
  // ---------------------------------------------------------------------------

  function Zeroed(ret: int, size: int): int {
    if ret == size then 0 else ret
  }

  /** libuboot_env_store, as a function of what goes wrong. */
  function Stored(cfg: Config, env: Env, image: Image, f: Faults): Outcome
    requires env.Valid()
  {
    var copy := if cfg.redundant then env.Other() else 0;
    var w := WriteTo(env, copy, image, f.first, cfg.size);
    var ret := Zeroed(w.ret, cfg.size);
    if w.crashed then Outcome(w.env, ret, true)
    else if !cfg.redundant then Outcome(w.env, ret, false)
    else if ret != 0 then
      var again := WriteTo(w.env, env.current, image, f.second, cfg.size);
      Outcome(again.env, Zeroed(again.ret, cfg.size), again.crashed)
    else if cfg.booleanFlags then
      var g := FlagOn(w.env, env.current, f.flag);
      if g.crashed then g else Outcome(g.env.(current := copy), g.ret, false)
    else Outcome(w.env.(current := copy), 0, false)
  }

  /** The faults fit the writes that meet them. */
  predicate PossibleFaults(cfg: Config, env: Env, image: Image, f: Faults)
    requires env.Valid()
  {
    && Plausible(env.copies[if cfg.redundant then env.Other() else 0], image, f.first, cfg.size)
    && Plausible(env.copies[env.current], image, f.second, cfg.size)
    && (f.flag.FlagFails? ==> f.flag.ret != 0)
  }

  /** A failed first write that returns 0 passes for a success. */
  predicate Misread(f: Faults) {
    f.first.Fails? && f.first.ret == 0
  }

  /** With at most one fault, whatever happens, one copy is complete and holds the old or the new image. */
  lemma SomeCopySurvives(cfg: Config, env: Env, before: Image, image: Image, f: Faults) returns (i: nat)
    requires cfg.Valid() && cfg.redundant && env.Valid() && env.Holds(before)
    requires PossibleFaults(cfg, env, image, f) && f.Count() <= 1
    ensures var e := Stored(cfg, env, image, f).env;
      e.Valid() && i < 2 && e.copies[i].Complete? && (e.copies[i].image == before || e.copies[i].image == image)
  {
    i := env.current;
  }

  /** A zero return means that the current copy holds the new image, except when a failed write was
      misread; then it does only if the write got through all the same. */
  lemma ZeroMeansStored(cfg: Config, env: Env, image: Image, f: Faults, o: Outcome)
    requires cfg.Valid() && cfg.redundant && env.Valid()
    requires PossibleFaults(cfg, env, image, f) && f.Count() <= 1
    requires o == Stored(cfg, env, image, f) && o.ret == 0 && !o.crashed
    ensures o.env.Holds(image) <==> !Misread(f) || (f.first.left.Complete? && f.first.left.image == image)
  {
  }

  /** Without such a misreading, every store that does not crash stores: the current copy holds the
      new image even when the return value says otherwise, which only the flag can cause. */
  lemma StoresAnyway(cfg: Config, env: Env, image: Image, f: Faults, o: Outcome)
    requires cfg.Valid() && cfg.redundant && env.Valid()
    requires PossibleFaults(cfg, env, image, f) && f.Count() <= 1 && !Misread(f)
    requires o == Stored(cfg, env, image, f) && !o.crashed
    ensures o.env.Valid() && o.env.Holds(image) && !o.env.copies[o.env.current].obsolete
    ensures o.ret != 0 <==> f.first.Works? && cfg.booleanFlags && f.flag.FlagFails?
    ensures o.env.current == if f.first.Works? then env.Other() else env.current
  {
  }

  /** A store that switches over leaves the old image where it is. It is flagged as obsolete exactly if flags
      are booleans and the flag was not lost; without boolean flags the old copy is not touched. */
  lemma OldCopyIsKept(cfg: Config, env: Env, before: Image, image: Image, f: Faults, o: Outcome)
    requires cfg.Valid() && cfg.redundant && env.Valid() && env.Holds(before)
    requires o == Stored(cfg, env, image, f) && f.first.Works?
    ensures o.env.Valid() && o.env.copies[env.Other()] == Complete(image, false)
    ensures o.env.copies[env.current].Complete? && o.env.copies[env.current].image == before
    ensures o.env.copies[env.current].obsolete == (
      if !cfg.booleanFlags then env.copies[env.current].obsolete else f.flag.FlagWorks? || f.flag.flag)
    ensures o.env.current == if o.crashed then env.current else env.Other()
    ensures o.crashed <==> cfg.booleanFlags && f.flag.FlagCrashes?
    ensures o.ret == if cfg.booleanFlags && f.flag.FlagFails? then f.flag.ret else 0
  {
  }

  /** Falling back rewrites the current copy, as the new one, and does not set any flag. */
  lemma FallsBack(cfg: Config, env: Env, image: Image, f: Faults, o: Outcome)
    requires cfg.Valid() && cfg.redundant && env.Valid() && PossibleFaults(cfg, env, image, f)
    requires o == Stored(cfg, env, image, f) && f.first.Fails? && f.first.ret != 0
    ensures o.env.Valid() && o.env.current == env.current && o.env.copies[env.Other()] == f.first.left
    ensures o.env.copies[env.current] == if f.second.Works? then Complete(image, false) else f.second.left
    ensures o.crashed <==> f.second.Crashes?
    ensures !o.crashed ==> (o.ret == 0 <==> f.second.Works? || f.second.ret == 0)
  {
  }

  /** Without redundancy there is only copy 0: it holds the new image after a zero return except for a
      misread failure, and one failed write can break it. */
  lemma PlainStore(cfg: Config, env: Env, image: Image, f: Faults, o: Outcome)
    requires cfg.Valid() && !cfg.redundant && env.Valid() && PossibleFaults(cfg, env, image, f)
    requires o == Stored(cfg, env, image, f)
    ensures o.env.Valid() && o.env.current == env.current && o.env.copies[1] == env.copies[1]
    ensures o.env.copies[0] == if f.first.Works? then Complete(image, false) else f.first.left
    ensures o.env.copies[0] in {env.copies[0], Broken, Complete(image, false)}
    ensures o.crashed <==> f.first.Crashes?
    ensures !o.crashed ==> (o.ret == 0 <==> f.first.Works? || f.first.ret == 0)
  {
  }

  /** Two faults in one store can lose both copies. */
  lemma TwoFaultsLose(cfg: Config, f: Faults)
    requires cfg.Valid() && cfg.redundant && f == Faults(Fails(-1, Broken), Fails(-1, Broken), FlagWorks)
    ensures var env := Env([Complete([1], false), Complete([0], true)], 0);
      PossibleFaults(cfg, env, [2], f) && Stored(cfg, env, [2], f).env.copies == [Broken, Broken]
  {
  }

  // ---------------------------------------------------------------------------
  // Runs
  // ---------------------------------------------------------------------------

  /** A store; after a crash the device boots from copy `boot`. */
  datatype Attempt = Attempt(image: Image, faults: Faults, boot: nat)

  function After(cfg: Config, env: Env, a: Attempt): Env
    requires env.Valid()
  {
    var o := Stored(cfg, env, a.image, a.faults);
    if o.crashed then o.env.(current := a.boot) else o.env
  }

  /** At most one fault, and a boot from a complete copy. */
  ghost predicate Possible(cfg: Config, env: Env, a: Attempt)
    requires env.Valid()
  {
    && PossibleFaults(cfg, env, a.image, a.faults) && a.faults.Count() <= 1
    && var o := Stored(cfg, env, a.image, a.faults);
       o.crashed ==> a.boot < |o.env.copies| && o.env.copies[a.boot].Complete?
  }

  ghost predicate Run(cfg: Config, env: Env, attempts: seq<Attempt>)
    decreases |attempts|
  {
    && env.Valid()
    && (attempts != [] ==> Possible(cfg, env, attempts[0]) && Run(cfg, After(cfg, env, attempts[0]), attempts[1..]))
  }

  function Final(cfg: Config, env: Env, attempts: seq<Attempt>): Env
    requires Run(cfg, env, attempts)
    decreases |attempts|
  {
    if attempts == [] then env else Final(cfg, After(cfg, env, attempts[0]), attempts[1..])
  }

  predicate NoMisreading(attempts: seq<Attempt>) {
    forall a :: a in attempts ==> !Misread(a.faults)
  }

  /** Stores without faults are always possible, and each of them stores. */
  lemma {:induction false} FaultFreeRun(cfg: Config, env: Env, attempts: seq<Attempt>, image: Image)
    requires cfg.Valid() && cfg.redundant && env.Valid()
    requires forall a :: a in attempts ==> a.faults == Faults(Works, Works, FlagWorks)
    ensures Run(cfg, env, attempts) && NoMisreading(attempts)
    ensures attempts != [] && attempts[|attempts| - 1].image == image ==>
      var e := Final(cfg, env, attempts); e.Valid() && e.copies[e.current] == Complete(image, false)
    decreases |attempts|
  {
    if attempts != [] {
      assert attempts[0] in attempts;
      assert forall a :: a in attempts[1..] ==> a in attempts;
      FaultFreeRun(cfg, After(cfg, env, attempts[0]), attempts[1..], image);
    }
  }

  lemma AttemptKeepsCurrent(cfg: Config, env: Env, a: Attempt, e: Env)
    requires cfg.Valid() && cfg.redundant && env.Valid() && env.copies[env.current].Complete?
    requires Possible(cfg, env, a) && !Misread(a.faults) && e == After(cfg, env, a)
    ensures e.Valid() && e.copies[e.current].Complete?
    ensures forall i :: 0 <= i < 2 && e.copies[i].Complete? ==>
      e.copies[i].image == a.image
      || exists j :: 0 <= j < 2 && env.copies[j].Complete? && env.copies[j].image == e.copies[i].image
  {
    if !Stored(cfg, env, a.image, a.faults).crashed {
      StoresAnyway(cfg, env, a.image, a.faults, Stored(cfg, env, a.image, a.faults));
    }
    forall i | 0 <= i < 2 && e.copies[i].Complete? && e.copies[i].image != a.image
      ensures env.copies[i].Complete? && env.copies[i].image == e.copies[i].image
    {
    }
  }

  /** Over every run with at most one fault per store and no misreading, the current copy stays
      complete, and no copy ever holds anything but an image that was stored. */
  lemma {:induction false} RunKeepsCurrent(cfg: Config, env: Env, attempts: seq<Attempt>, known: set<Image>)
    requires cfg.Valid() && cfg.redundant && Run(cfg, env, attempts) && NoMisreading(attempts)
    requires env.copies[env.current].Complete?
    requires forall i :: 0 <= i < 2 && env.copies[i].Complete? ==> env.copies[i].image in known
    ensures var e := Final(cfg, env, attempts);
      && e.Valid() && e.copies[e.current].Complete?
      && forall i :: 0 <= i < 2 && e.copies[i].Complete? ==>
           e.copies[i].image in known + (set a | a in attempts :: a.image)
    decreases |attempts|
  {
    if attempts != [] {
      var a, rest := attempts[0], attempts[1..];
      var e := After(cfg, env, a);
      AttemptKeepsCurrent(cfg, env, a, e);
      RunKeepsCurrent(cfg, e, rest, known + {a.image});
      assert forall b :: b in rest ==> b in attempts;
    }
  }

  /** With a misreading, a run of two stores with one fault each can lose both copies. */
  lemma MisreadingLoses(cfg: Config, attempts: seq<Attempt>)
    requires cfg.Valid() && cfg.redundant
    requires attempts == [Attempt([2], Faults(Fails(0, Broken), Works, FlagWorks), 0),
                          Attempt([3], Faults(Crashes(Broken), Works, FlagWorks), 0)]
    ensures var env := Env([Complete([1], false), Complete([0], true)], 0);
      && Possible(cfg, env, attempts[0])
      && var e := After(cfg, env, attempts[0]);
         && e.Valid() && Stored(cfg, env, [2], attempts[0].faults).ret == 0 && !e.Holds([2])
         && PossibleFaults(cfg, e, [3], attempts[1].faults)
         && Stored(cfg, e, [3], attempts[1].faults).env.copies == [Broken, Broken]
  {
  }

  // ---------------------------------------------------------------------------
  // The library
  // ---------------------------------------------------------------------------

  class UbootCtx {
    const cfg: Config
    var env: Env

    constructor (cfg: Config, env: Env)
      requires cfg.Valid() && env.Valid()
      ensures this.cfg == cfg && this.env == env
    {
      this.cfg, this.env := cfg, env;
    }

    method DevWrite(i: nat, image: Image, f: WriteFault) returns (ret: int, crashed: bool)
      requires i < |env.copies|
      modifies this`env
      ensures Outcome(env, ret, crashed) == WriteTo(old(env), i, image, f, cfg.size)
    {
      match f {
        case Works => env, ret, crashed := env.(copies := env.copies[i := Complete(image, false)]), cfg.size, false;
        case Fails(r, left) => env, ret, crashed := env.(copies := env.copies[i := left]), r, false;
        case Crashes(left) => env, ret, crashed := env.(copies := env.copies[i := left]), cfg.size, true;
      }
    }

    method SetObsoleteFlag(i: nat, f: FlagFault) returns (ret: int, crashed: bool)
      requires i < |env.copies|
      modifies this`env
      ensures Outcome(env, ret, crashed) == FlagOn(old(env), i, f)
    {
      var flag := if f.FlagWorks? then true else f.flag;
      env := env.(copies := env.copies[i := Flagged(env.copies[i], flag)]);
      ret, crashed := if f.FlagFails? then f.ret else 0, f.FlagCrashes?;
    }

    /** libuboot_env_store */
    method Store(image: Image, f: Faults) returns (ret: int, crashed: bool)
      requires env.Valid()
      modifies this`env
      ensures Outcome(env, ret, crashed) == Stored(cfg, old(env), image, f)
    {
      var copy := if cfg.redundant then (if env.current != 0 then 0 else 1) else 0;
      ret, crashed := DevWrite(copy, image, f.first);
      if ret == cfg.size { ret := 0; }
      if crashed { return; }
      if cfg.redundant {
        if ret != 0 {
          ret, crashed := DevWrite(env.current, image, f.second);
          if ret == cfg.size { ret := 0; }
        } else {
          if cfg.booleanFlags {
            ret, crashed := SetObsoleteFlag(env.current, f.flag);
            if crashed { return; }
          }
          env := env.(current := copy);
        }
      }
    }

    /** The checks at the start of libuboot_load: a copy that cannot be read counts as one with a
        wrong checksum. */
    method CheckCopies(readable: seq<bool>) returns (crcenv: seq<bool>)
      requires env.Valid() && |readable| == 2
      ensures |crcenv| == 2
      ensures forall i :: 0 <= i < 2 ==> (crcenv[i] <==> readable[i] && env.copies[i].Complete?)
    {
      crcenv := [false, false];
      for i := 0 to 2
        invariant |crcenv| == 2
        invariant forall k :: 0 <= k < i ==> (crcenv[k] <==> readable[k] && env.copies[k].Complete?)
      {
        if !readable[i] {
          crcenv := crcenv[i := false];
          continue;
        }
        crcenv := crcenv[i := env.copies[i].Complete?];
      }
    }
  }
}
