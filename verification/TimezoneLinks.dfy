/**
  The time zone as a chain of symbolic links that starts at /etc/localtime. Reader and writer
  follow the chain the same way; the writer replaces its last link.
 */
module TimezoneLinks {
  import opened Options

  const LOCALTIME: string := "/etc/localtime"
  const TIMEZONE: string := "/etc/timezone"
  const ZONEINFO: string := "/usr/share/zoneinfo/"
  const RELATIVE_ZONEINFO: string := "../usr/share/zoneinfo/"
  const UTC: string := "UTC"

  datatype Node = Link(target: string) | File(content: string)

  /** Names as readlink gets them; two different names are two different files. */
  type Fs = map<string, Node>

  /** EINVAL: the chain ends at something that is not a link, or at no valid zone. */
  datatype Reading = Zone(name: string) | Invalid

  // ---------------------------------------------------------------------------
  // Following links
  // ---------------------------------------------------------------------------

  /** PATH_STARTSWITH_SET: the rest of a target below one of the two zoneinfo prefixes. */
  function ZoneOf(target: string): Option<string> {
    if ZONEINFO <= target then Some(target[|ZONEINFO|..])
    else if RELATIVE_ZONEINFO <= target then Some(target[|RELATIVE_ZONEINFO|..])
    else None
  }

  /** Who follows a chain: the daemon stops at a link to a zone, the kernel opens the file behind every link. */
  datatype Follower = Daemon | Kernel

  predicate IsLink(fs: Fs, n: string) { n in fs && fs[n].Link? }

  /** The walk goes on from this name. */
  predicate Follows(fs: Fs, who: Follower, n: string) {
    IsLink(fs, n) && (who == Kernel || ZoneOf(fs[n].target).None?)
  }

  /** The name after k rounds; it stays where the walk stops. */
  function Chain(fs: Fs, who: Follower, n: string, k: nat): string {
    if k == 0 then n
    else
      var m := Chain(fs, who, n, k - 1);
      if Follows(fs, who, m) then fs[m].target else m
  }

  ghost predicate Ends(fs: Fs, who: Follower, n: string) {
    exists k: nat :: !Follows(fs, who, Chain(fs, who, n, k))
  }

  /** Where the walk stops, who a search that gives up when it meets a link again. */
  function Last(fs: Fs, who: Follower, n: string, unvisited: set<string>): Option<string>
    decreases |unvisited|
  {
    if !Follows(fs, who, n) then Some(n)
    else if n !in unvisited then None
    else Last(fs, who, fs[n].target, unvisited - {n})
  }

  lemma {:induction false} ChainAdd(fs: Fs, who: Follower, n: string, i: nat, k: nat)
    ensures Chain(fs, who, n, i + k) == Chain(fs, who, Chain(fs, who, n, i), k)
  {
    if k > 0 { ChainAdd(fs, who, n, i, k - 1); }
  }

  lemma {:induction false} ChainStuck(fs: Fs, who: Follower, n: string, k: nat)
    requires !Follows(fs, who, n)
    ensures Chain(fs, who, n, k) == n
  {
    if k > 0 { ChainStuck(fs, who, n, k - 1); }
  }

  lemma StuckAfter(fs: Fs, who: Follower, n: string, i: nat, k: nat)
    requires i <= k && !Follows(fs, who, Chain(fs, who, n, i))
    ensures !Follows(fs, who, Chain(fs, who, n, k))
  {
    ChainAdd(fs, who, n, i, k - i);
    ChainStuck(fs, who, Chain(fs, who, n, i), k - i);
  }

  /** On a cycle the walk goes on forever. */
  lemma {:induction false} CycleFollows(fs: Fs, who: Follower, n: string, period: nat, k: nat)
    requires period > 0 && Chain(fs, who, n, period) == n && Follows(fs, who, n)
    ensures Follows(fs, who, Chain(fs, who, n, k))
    decreases k
  {
    if k <= period {
      if !Follows(fs, who, Chain(fs, who, n, k)) { StuckAfter(fs, who, n, k, period); }
    } else {
      CycleFollows(fs, who, n, period, k - period);
      ChainAdd(fs, who, n, period, k - period);
    }
  }

  /** Every visited link leads to n in at least one round. */
  ghost predicate Visited(fs: Fs, who: Follower, n: string, unvisited: set<string>) {
    forall v :: v in fs.Keys - unvisited ==> exists k: nat :: k > 0 && Chain(fs, who, v, k) == n
  }

  lemma VisitOne(fs: Fs, who: Follower, n: string, unvisited: set<string>)
    requires Visited(fs, who, n, unvisited) && Follows(fs, who, n)
    ensures Visited(fs, who, fs[n].target, unvisited - {n})
  {
    var m := fs[n].target;
    forall v | v in fs.Keys - (unvisited - {n}) ensures exists k: nat :: k > 0 && Chain(fs, who, v, k) == m {
      if v == n {
        assert Chain(fs, who, v, 0) == n;
        assert Chain(fs, who, v, 1) == m;
      } else {
        assert v in fs.Keys - unvisited;
        var k: nat :| k > 0 && Chain(fs, who, v, k) == n;
        assert Chain(fs, who, v, k + 1) == m;
      }
    }
  }

  /** The search is right: it gives up exactly when the walk would never end, and otherwise finds
      the name at which it stops. */
  lemma {:induction false} LastIsEnd(fs: Fs, who: Follower, n: string, unvisited: set<string>)
    requires unvisited <= fs.Keys && Visited(fs, who, n, unvisited)
    ensures Last(fs, who, n, unvisited).Some? <==> Ends(fs, who, n)
    ensures Last(fs, who, n, unvisited).Some? ==>
      var m := Last(fs, who, n, unvisited).value;
      !Follows(fs, who, m) && exists k: nat :: Chain(fs, who, n, k) == m
    decreases |unvisited|
  {
    if !Follows(fs, who, n) {
      assert Chain(fs, who, n, 0) == n;
    } else if n !in unvisited {
      assert n in fs.Keys - unvisited;
      var period: nat :| period > 0 && Chain(fs, who, n, period) == n;
      forall k: nat ensures Follows(fs, who, Chain(fs, who, n, k)) {
        CycleFollows(fs, who, n, period, k);
      }
    } else {
      var m := fs[n].target;
      VisitOne(fs, who, n, unvisited);
      LastIsEnd(fs, who, m, unvisited - {n});
      NextEnds(fs, who, n, m);
    }
  }

  lemma NextEnds(fs: Fs, who: Follower, n: string, m: string)
    requires Follows(fs, who, n) && m == fs[n].target
    ensures Ends(fs, who, n) <==> Ends(fs, who, m)
    ensures forall k: nat :: Chain(fs, who, n, k + 1) == Chain(fs, who, m, k)
  {
    assert Chain(fs, who, n, 0) == n && Chain(fs, who, n, 1) == m;
    forall k: nat ensures Chain(fs, who, n, k + 1) == Chain(fs, who, m, k) {
      ChainAdd(fs, who, n, 1, k);
    }
    if Ends(fs, who, n) {
      var k: nat :| !Follows(fs, who, Chain(fs, who, n, k));
      assert k > 0;
      assert !Follows(fs, who, Chain(fs, who, m, k - 1));
    }
    if Ends(fs, who, m) {
      var k: nat :| !Follows(fs, who, Chain(fs, who, m, k));
      assert !Follows(fs, who, Chain(fs, who, n, k + 1));
    }
  }

  /** Where the daemon's loop stops. */
  function Stop(fs: Fs): Option<string> { Last(fs, Daemon, LOCALTIME, fs.Keys) }

  /** The file that opening /etc/timezone leads to; none if the links run in a circle. */
  function Place(fs: Fs): Option<string> { Last(fs, Kernel, TIMEZONE, fs.Keys) }

  /** The daemon's loop ends exactly when the search finds a last name, and so does opening /etc/timezone. */
  lemma LoopEndsIff(fs: Fs)
    ensures Stop(fs).Some? <==> Ends(fs, Daemon, LOCALTIME)
    ensures Place(fs).Some? <==> Ends(fs, Kernel, TIMEZONE)
  {
    LastIsEnd(fs, Daemon, LOCALTIME, fs.Keys);
    LastIsEnd(fs, Kernel, TIMEZONE, fs.Keys);
  }

  // ---------------------------------------------------------------------------
  // Reading and writing
  // ---------------------------------------------------------------------------

  /** What the reader makes of the name at which it stops. */
  function ReadAt(fs: Fs, zones: set<string>, m: string): Reading {
    if m !in fs then Zone(UTC)
    else if fs[m].File? then Invalid
    else
      match ZoneOf(fs[m].target)
      case Some(zone) => if zone in zones then Zone(zone) else Invalid
      case None => Invalid
  }

  /** An unset zone counts as UTC. */
  function Meant(zone: string): string {
    if zone == "" then UTC else zone
  }

  /** The file system after the writer has stopped at m, when /etc/timezone leads to w. */
  function Written(fs: Fs, zones: set<string>, zone: string, m: string, w: string): Fs {
    if Meant(zone) == UTC && UTC !in zones then fs[w := File(UTC)] - {m}
    else fs[w := File(zone)][m := Link(ZONEINFO + Meant(zone))]
  }

  /** The timezone that a reader gets, if the chain ends. */
  function CurrentZone(fs: Fs, zones: set<string>): Reading {
    match Stop(fs)
    case Some(m) => ReadAt(fs, zones, m)
    case None => Invalid
  }

  /** What names a zone at the end of a chain: nothing at all names UTC, and a link below one of the two
      prefixes an installed zone. */
  predicate Names(fs: Fs, zones: set<string>, m: string, z: string) {
    && (m !in fs ==> z == "UTC")
    && (m in fs ==>
          fs[m].Link? && z in zones && fs[m].target in {"/usr/share/zoneinfo/" + z, "../usr/share/zoneinfo/" + z})
  }

  /** The reader gets exactly what is named at the end of the chain. */
  lemma ReadIff(fs: Fs, zones: set<string>, m: string, z: string)
    requires Stop(fs) == Some(m)
    ensures CurrentZone(fs, zones) == Zone(z) <==> Names(fs, zones, m, z)
  {
    LastStops(fs, Daemon, LOCALTIME, fs.Keys, m);
    if IsLink(fs, m) { ZoneOfIff(fs[m].target, z); }
  }

  /** The prefix of a zone is one of two. */
  lemma ZoneOfIff(target: string, z: string)
    ensures ZoneOf(target) == Some(z)
       <==> target == "/usr/share/zoneinfo/" + z || target == "../usr/share/zoneinfo/" + z
  {
    assert ZONEINFO[0] == '/' && RELATIVE_ZONEINFO[0] == '.';
    if ZONEINFO <= target { assert target == ZONEINFO + target[|ZONEINFO|..]; }
    if RELATIVE_ZONEINFO <= target { assert target == RELATIVE_ZONEINFO + target[|RELATIVE_ZONEINFO|..]; }
  }

  /** Nothing that the chain passes through has changed. */
  ghost predicate SameLinks(fs: Fs, fs': Fs, who: Follower, unvisited: set<string>, unvisited': set<string>) {
    forall x :: Follows(fs, who, x) ==> x in fs' && fs'[x] == fs[x] && (x in unvisited ==> x in unvisited')
  }

  lemma {:induction false} SameEnd(fs: Fs, fs': Fs, who: Follower, n: string, unvisited: set<string>,
                                   unvisited': set<string>, m: string)
    requires Last(fs, who, n, unvisited) == Some(m) && SameLinks(fs, fs', who, unvisited, unvisited')
    requires !Follows(fs', who, m)
    ensures Last(fs', who, n, unvisited') == Some(m)
    decreases |unvisited|
  {
    if Follows(fs, who, n) {
      SameEnd(fs, fs', who, fs[n].target, unvisited - {n}, unvisited' - {n}, m);
    }
  }

  lemma {:induction false} LastStops(fs: Fs, who: Follower, n: string, unvisited: set<string>, m: string)
    requires Last(fs, who, n, unvisited) == Some(m)
    ensures !Follows(fs, who, m)
    decreases |unvisited|
  {
    if Follows(fs, who, n) { LastStops(fs, who, fs[n].target, unvisited - {n}, m); }
  }

  /** A zone that can be set: installed, or UTC, or none. */
  predicate Settable(zones: set<string>, zone: string) {
    Meant(zone) == UTC || zone in zones
  }

  /** Writing a zone and reading it back gives that zone, through the same chain, whatever the chain
      looked like; a zone that is not installed reads as invalid. Only the last name and the file behind
      /etc/timezone have changed. */
  lemma WriteThenRead(fs: Fs, zones: set<string>, zone: string, m: string, w: string, fs': Fs)
    requires Stop(fs) == Some(m) && Place(fs) == Some(w)
    requires fs' == Written(fs, zones, zone, m, w)
    ensures CurrentZone(fs', zones) == if Settable(zones, zone) then Zone(Meant(zone)) else Invalid
    ensures Stop(fs') == Some(m)
    ensures forall x :: x != m && x != w ==> (x in fs' <==> x in fs) && (x in fs ==> fs'[x] == fs[x])
    ensures m in fs' <==> Meant(zone) != UTC || UTC in zones
    ensures m in fs' ==> fs'[m] == Link("/usr/share/zoneinfo/" + if zone == "" then "UTC" else zone)
    ensures m != w ==>
      (w in fs' && fs'[w] == File(Meant(zone)) <==> zone != "" || UTC !in zones)
  {
    LastStops(fs, Daemon, LOCALTIME, fs.Keys, m);
    LastStops(fs, Kernel, TIMEZONE, fs.Keys, w);
    ZoneOfIff(ZONEINFO + Meant(zone), Meant(zone));
    assert !Follows(fs', Daemon, m);
    SameEnd(fs, fs', Daemon, LOCALTIME, fs.Keys, fs'.Keys, m);
  }

  /** The file system after a sequence of zone changes. */
  function Rewritten(fs: Fs, zones: set<string>, changes: seq<string>): Fs
    decreases |changes|
  {
    if changes == [] then fs
    else
      match (Stop(fs), Place(fs))
      case (Some(m), Some(w)) => Rewritten(Written(fs, zones, changes[0], m, w), zones, changes[1..])
      case _ => fs
  }

  /** /etc/timezone leads to w without passing through the end of the other chain. */
  predicate Apart(fs: Fs, m: string, w: string) {
    m != w && Last(fs - {m}, Kernel, TIMEZONE, fs.Keys - {m}) == Some(w)
  }

  /** One change keeps the chains apart. */
  lemma StaysApart(fs: Fs, zones: set<string>, zone: string, m: string, w: string, fs': Fs)
    requires Apart(fs, m, w) && fs' == Written(fs, zones, zone, m, w)
    ensures Place(fs) == Some(w) && Apart(fs', m, w)
  {
    LastStops(fs - {m}, Kernel, TIMEZONE, fs.Keys - {m}, w);
    SameEnd(fs - {m}, fs, Kernel, TIMEZONE, fs.Keys - {m}, fs.Keys, w);
    SameEnd(fs - {m}, fs' - {m}, Kernel, TIMEZONE, fs.Keys - {m}, fs'.Keys - {m}, w);
  }

  /** Over every sequence of zone changes the chain keeps ending at the same name, and the reader
      sees the last change. */
  lemma {:induction false} LastChangeWins(fs: Fs, zones: set<string>, changes: seq<string>, m: string, w: string)
    requires Stop(fs) == Some(m) && Apart(fs, m, w)
    requires changes != [] && forall z :: z in changes ==> Settable(zones, z)
    ensures var fs', last := Rewritten(fs, zones, changes), changes[|changes| - 1];
      && CurrentZone(fs', zones) == Zone(Meant(last))
      && Stop(fs') == Some(m)
      && (w in fs' && fs'[w] == File(Meant(last)) <==> last != "" || UTC !in zones)
      && (forall x :: x != m && x != w ==> (x in fs' <==> x in fs) && (x in fs ==> fs'[x] == fs[x]))
    decreases |changes|
  {
    var next := Written(fs, zones, changes[0], m, w);
    StaysApart(fs, zones, changes[0], m, w, next);
    WriteThenRead(fs, zones, changes[0], m, w, next);
    if |changes| == 1 {
      assert changes[1..] == [];
    } else {
      LastChangeWins(next, zones, changes[1..], m, w);
    }
  }

  lemma OneLink(fs: Fs, who: Follower, n: string, m: string, unvisited: set<string>)
    requires Follows(fs, who, n) && fs[n].target == m && !Follows(fs, who, m) && n in unvisited
    ensures Last(fs, who, n, unvisited) == Some(m)
  {
  }

  /** The links of the image: both lead to the data partition, to different files there. */
  lemma ImageLinks(fs: Fs)
    requires TIMEZONE in fs && fs[TIMEZONE] == Link("/data/misc/timezone")
    requires LOCALTIME in fs && fs[LOCALTIME] == Link("/data/misc/localtime")
    requires !Follows(fs, Kernel, "/data/misc/timezone") && !Follows(fs, Daemon, "/data/misc/localtime")
    ensures Place(fs) == Some("/data/misc/timezone") && Stop(fs) == Some("/data/misc/localtime")
    ensures Apart(fs, "/data/misc/localtime", "/data/misc/timezone")
  {
    var m, w := "/data/misc/localtime", "/data/misc/timezone";
    assert m[11] == 'l' && w[11] == 't' && m[1] == 'd' && TIMEZONE[1] == 'e';
    assert m[0] == '/' && ZONEINFO[1] == 'u' && RELATIVE_ZONEINFO[0] == '.';
    OneLink(fs, Daemon, LOCALTIME, m, fs.Keys);
    OneLink(fs, Kernel, TIMEZONE, w, fs.Keys);
    OneLink(fs - {m}, Kernel, TIMEZONE, w, fs.Keys - {m});
  }

  /** The daemon's view: a file system and the installed zones. */
  class Timedated {
    const zones: set<string>
    var fs: Fs

    constructor (fs: Fs, zones: set<string>)
      ensures this.fs == fs && this.zones == zones
    {
      this.fs, this.zones := fs, zones;
    }

    /** The loop that reader and writer share. */
    method FollowLinks() returns (n: string)
      requires Ends(fs, Daemon, LOCALTIME)
      ensures Stop(fs) == Some(n)
    {
      LoopEndsIff(fs);
      n := LOCALTIME;
      ghost var unvisited := fs.Keys;
      while Follows(fs, Daemon, n)
        invariant unvisited <= fs.Keys
        invariant Last(fs, Daemon, n, unvisited) == Stop(fs)
        decreases |unvisited|
      {
        unvisited := unvisited - {n};
        n := fs[n].target;
      }
    }

    /** get_timezone */
    method GetTimezone() returns (reading: Reading)
      requires Ends(fs, Daemon, LOCALTIME)
      ensures reading == CurrentZone(fs, zones)
    {
      var n := FollowLinks();
      if n !in fs { return Zone(UTC); }
      match fs[n] {
        case File(_) => return Invalid;
        case Link(t) =>
          var e := ZoneOf(t);
          if e.None? || e.value !in zones { return Invalid; }
          return Zone(e.value);
      }
    }

    /** context_write_data_timezone */
    method WriteTimezone(zone: string) returns (ok: bool)
      requires Ends(fs, Daemon, LOCALTIME)
      modifies this
      ensures Stop(old(fs)).Some? && Ends(fs, Daemon, LOCALTIME)
      ensures ok <==> Place(old(fs)).Some?
      ensures !ok ==> fs == old(fs)
      ensures ok ==>
        && fs == Written(old(fs), zones, zone, Stop(old(fs)).value,
                         Place(old(fs)).value)
        && CurrentZone(fs, zones) == if Settable(zones, zone) then Zone(Meant(zone)) else Invalid
    {
      var n := FollowLinks();
      ghost var before := fs;
      var place := Place(fs);
      var source;
      if zone == "" || zone == UTC {
        if UTC !in zones {
          if place.None? { return false; }
          fs := fs[place.value := File(UTC)];
          fs := fs - {n};
          WriteThenRead(before, zones, zone, n, place.value, fs);
          LoopEndsIff(fs);
          return true;
        }
        source := "/usr/share/zoneinfo/UTC";
      } else {
        source := "/usr/share/zoneinfo" + "/" + zone;
      }
      if place.None? { return false; }
      fs := fs[place.value := File(zone)];
      fs := fs[n := Link(source)];
      assert source == ZONEINFO + Meant(zone);
      WriteThenRead(before, zones, zone, n, place.value, fs);
      LoopEndsIff(fs);
      ok := true;
    }
  }
}
