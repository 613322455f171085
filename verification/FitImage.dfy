/**
  The generator of FIT image sources: which device trees are picked up, which image sections are
  emitted, and what the configuration sections refer to. Device tree names are flat and contain no
  special character of a basic regular expression but the dot.
 */
module FitImage {
  import opened Options

  /** An entry of the external device tree directory: a file, a link whose target lies in the
      directory, or a link that leads elsewhere. */
  datatype Entry = Regular(empty: bool) | Below(target: string) | Outside(empty: bool)

  datatype Params = Params(
    prefix: string,
    kernelDts: seq<string>,
    external: bool,
    entries: map<string, Entry>,
    listing: seq<string>,
    defaultDtb: string,
    bootscr: string,
    setup: bool,
    initramfs: bool,
    bundle: bool,
    initramfsFound: bool,
    sameKeys: bool,
    sign: bool)
  {
    /** The ramdisk argument: do_assemble_fitimage passes none, do_assemble_fitimage_initramfs only
        when the initramfs is not bundled. */
    predicate Ramdisk() { initramfs && !bundle }

    /** The listing shows the entries that end in .dtb or .dtbo; names are not empty. */
    ghost predicate Valid() {
      && (external ==> forall n :: n in listing <==> n in entries && (EndsIn(n, ".dtb") || EndsIn(n, ".dtbo")))
      && (!external ==> entries == map[] && listing == [])
      && "" !in kernelDts && "" !in listing
    }
  }

  predicate EndsIn(s: string, suffix: string) {
    |suffix| <= |s| && s[|s| - |suffix|..] == suffix
  }

  // ---------------------------------------------------------------------------
  // Picking up device trees
  // ---------------------------------------------------------------------------

  /** grep -x: a dot in the pattern matches any character. */
  predicate Matches(pattern: string, line: string) {
    |pattern| == |line| && forall i :: 0 <= i < |pattern| ==> pattern[i] == '.' || pattern[i] == line[i]
  }

  /** The pattern read character by character. */
  predicate MatchesFrom(pattern: string, line: string) {
    if pattern == "" then line == ""
    else line != "" && pattern[0] in {'.', line[0]} && MatchesFrom(pattern[1..], line[1..])
  }

  lemma {:induction false} MatchesIff(pattern: string, line: string)
    ensures Matches(pattern, line) <==> MatchesFrom(pattern, line)
    decreases |pattern|
  {
    if pattern != "" && line != "" {
      MatchesIff(pattern[1..], line[1..]);
      if Matches(pattern[1..], line[1..]) {
        assert forall i :: 1 <= i < |pattern| ==> pattern[i] == pattern[1..][i - 1] && line[i] == line[1..][i - 1];
      }
    }
  }

  /** A name without dots passes for no other one. */
  lemma DotlessMatchesIff(pattern: string, line: string)
    requires '.' !in pattern
    ensures Matches(pattern, line) <==> pattern == line
  {
    forall i | 0 <= i < |pattern| ensures pattern[i] != '.' {
      assert pattern[i] in pattern;
    }
  }

  predicate PickedUp(dtbs: seq<string>, name: string) {
    exists i :: 0 <= i < |dtbs| && Matches(name, dtbs[i])
  }

  /** A device tree that the loops come across, and whether they would emit an image for it. */
  datatype Candidate = Candidate(name: string, image: bool)

  datatype Picked = Picked(dtbs: seq<string>, fdts: seq<string>, default: string)

  /** One round of either loop. */
  function Pick(p: Picked, c: Candidate, wanted: string): Picked {
    var default := if wanted == c.name then c.name else p.default;
    if PickedUp(p.dtbs, c.name) then p.(default := default)
    else Picked(p.dtbs + [c.name], if c.image then p.fdts + [c.name] else p.fdts, default)
  }

  function PickAll(cs: seq<Candidate>, wanted: string): Picked {
    if cs == [] then Picked([], [], "")
    else Pick(PickAll(cs[..|cs| - 1], wanted), cs[|cs| - 1], wanted)
  }

  /** test -s on an entry. */
  predicate HasContent(p: Params, name: string) {
    name in p.entries &&
    match p.entries[name]
    case Regular(empty) => !empty
    case Outside(empty) => !empty
    case Below(t) => t in p.entries && p.entries[t].Regular? && !p.entries[t].empty
  }

  /** symlink_points_below */
  function PointsBelow(p: Params, name: string): Option<string> {
    if name in p.entries && p.entries[name].Below? then Some(p.entries[name].target) else None
  }

  function KernelCandidates(p: Params, k: nat): seq<Candidate>
    requires k <= |p.kernelDts|
  {
    if k == 0 then []
    else KernelCandidates(p, k - 1)
         + if HasContent(p, p.kernelDts[k - 1]) then [] else [Candidate(p.kernelDts[k - 1], true)]
  }

  function ExternalCandidates(p: Params, k: nat): (cs: seq<Candidate>)
    requires k <= |p.listing|
    ensures |cs| == k
  {
    seq(k, i requires 0 <= i < k => Candidate(p.listing[i], PointsBelow(p, p.listing[i]).None?))
  }

  /** Everything that the two loops come across, in order. */
  function Candidates(p: Params): seq<Candidate> {
    KernelCandidates(p, |p.kernelDts|) + ExternalCandidates(p, |p.listing|)
  }

  lemma {:induction false} KernelNames(p: Params, k: nat, c: Candidate)
    requires k <= |p.kernelDts|
    ensures c in KernelCandidates(p, k)
       <==> c.image && exists i :: 0 <= i < k && p.kernelDts[i] == c.name && !HasContent(p, c.name)
  {
    if k > 0 { KernelNames(p, k - 1, c); }
  }

  /** There is such an entry with content, possibly behind a link. */
  predicate IsThere(p: Params, name: string) {
    name in p.entries &&
    match p.entries[name]
    case Below(t) => t in p.entries && p.entries[t] == Regular(false)
    case e => e in {Regular(false), Outside(false)}
  }

  lemma ThereIff(p: Params, name: string)
    ensures HasContent(p, name) <==> IsThere(p, name)
  {
  }

  lemma ListedNames(p: Params, c: Candidate, cs: seq<Candidate>)
    requires cs == ExternalCandidates(p, |p.listing|)
    ensures c in cs <==> c.name in p.listing && c.image == PointsBelow(p, c.name).None?
  {
    if c.name in p.listing && c.image == PointsBelow(p, c.name).None? {
      var i :| 0 <= i < |p.listing| && p.listing[i] == c.name;
      assert cs[i] == c;
    }
  }

  /** The loops come across the kernel's device trees that are not there in the external directory, always with an
      image, and across all that the listing shows, with an image unless it is a link below the directory. */
  lemma CandidateIff(p: Params, c: Candidate)
    requires p.Valid()
    ensures c in Candidates(p) <==>
      (c.image && c.name in p.kernelDts && !IsThere(p, c.name))
      || (c.name in p.listing && c.name in p.entries && c.image == !p.entries[c.name].Below?)
  {
    KernelNames(p, |p.kernelDts|, c);
    ThereIff(p, c.name);
    ListedNames(p, c, ExternalCandidates(p, |p.listing|));
  }

  lemma {:induction false} KernelAt(p: Params, i: nat, k: nat)
    requires i < k <= |p.kernelDts| && !HasContent(p, p.kernelDts[i])
    ensures |KernelCandidates(p, i)| < |KernelCandidates(p, k)|
    ensures KernelCandidates(p, k)[|KernelCandidates(p, i)|] == Candidate(p.kernelDts[i], true)
  {
    if i < k - 1 { KernelAt(p, i, k - 1); }
  }

  /** In the order of the list of the kernel, and the listing behind them. */
  lemma CandidatesInOrder(p: Params, i: nat, j: nat) returns (a: nat, b: nat)
    requires i < j < |p.kernelDts| && !IsThere(p, p.kernelDts[i]) && !IsThere(p, p.kernelDts[j])
    ensures a < b < |Candidates(p)| - |p.listing|
    ensures Candidates(p)[a].name == p.kernelDts[i] && Candidates(p)[b].name == p.kernelDts[j]
    ensures forall k :: 0 <= k < |p.listing| ==>
      Candidates(p)[|Candidates(p)| - |p.listing| + k].name == p.listing[k]
  {
    a, b := |KernelCandidates(p, i)|, |KernelCandidates(p, j)|;
    ThereIff(p, p.kernelDts[i]);
    ThereIff(p, p.kernelDts[j]);
    KernelAt(p, i, j);
    KernelAt(p, i, |p.kernelDts|);
    KernelAt(p, j, |p.kernelDts|);
  }

  // ---------------------------------------------------------------------------
  // What is picked
  // ---------------------------------------------------------------------------

  predicate Distinct(s: seq<string>) {
    forall i, j :: 0 <= i < j < |s| ==> s[i] != s[j]
  }

  lemma SelfMatch(name: string)
    ensures Matches(name, name)
  {
  }

  /** No device tree is picked twice, and images are emitted only for picked ones. */
  lemma {:induction false} PickedIsSound(cs: seq<Candidate>, wanted: string)
    ensures var p := PickAll(cs, wanted);
      && Distinct(p.dtbs) && Distinct(p.fdts)
      && (forall n :: n in p.fdts ==> n in p.dtbs)
      && (forall n :: n in p.dtbs ==> exists c :: c in cs && c.name == n)
      && (forall n :: n in p.fdts ==> Candidate(n, true) in cs)
  {
    if cs != [] {
      var before, c := cs[..|cs| - 1], cs[|cs| - 1];
      PickedIsSound(before, wanted);
      SelfMatch(c.name);
      var p := PickAll(before, wanted);
      assert cs == before + [c];
      assert c.name in p.dtbs ==> PickedUp(p.dtbs, c.name);
    }
  }

  /** The default is the wanted name if the loops came across it. */
  lemma {:induction false} DefaultIsWanted(cs: seq<Candidate>, wanted: string)
    requires wanted != ""
    ensures PickAll(cs, wanted).default == if exists c :: c in cs && c.name == wanted then wanted else ""
  {
    if cs != [] {
      var before, c := cs[..|cs| - 1], cs[|cs| - 1];
      DefaultIsWanted(before, wanted);
      assert cs == before + [c];
    }
  }

  lemma {:induction false} NoDefault(cs: seq<Candidate>)
    requires forall c :: c in cs ==> c.name != ""
    ensures PickAll(cs, "").default == ""
  {
    if cs != [] { NoDefault(cs[..|cs| - 1]); }
  }

  /** Position of the first candidate with this name. */
  function First(cs: seq<Candidate>, name: string): (k: nat)
    ensures k <= |cs|
    ensures k < |cs| ==> cs[k].name == name
    ensures forall i :: 0 <= i < k ==> cs[i].name != name
  {
    if cs == [] || cs[0].name == name then 0 else 1 + First(cs[1..], name)
  }

  lemma {:induction false} PickedStays(cs: seq<Candidate>, k: nat, wanted: string)
    requires k <= |cs|
    ensures PickAll(cs[..k], wanted).dtbs <= PickAll(cs, wanted).dtbs
    decreases |cs|
  {
    if k == |cs| {
      assert cs[..k] == cs;
    } else {
      PickedStays(cs[..|cs| - 1], k, wanted);
      assert cs[..|cs| - 1][..k] == cs[..k];
    }
  }

  /** A name is picked exactly when it is come across and nothing picked before its first appearance
      matches it as a pattern. */
  lemma PickedIff(cs: seq<Candidate>, name: string, wanted: string)
    ensures name in PickAll(cs, wanted).dtbs <==>
      First(cs, name) < |cs| && !PickedUp(PickAll(cs[..First(cs, name)], wanted).dtbs, name)
  {
    var k := First(cs, name);
    PickedIsSound(cs[..k], wanted);
    if k < |cs| {
      if PickedUp(PickAll(cs[..k], wanted).dtbs, name) {
        NeverPicked(cs, k, name, wanted);
      } else {
        PickedStays(cs, k + 1, wanted);
        assert cs[..k + 1][..k] == cs[..k];
        assert PickAll(cs[..k + 1], wanted).dtbs[|PickAll(cs[..k], wanted).dtbs|] == name;
      }
    } else {
      PickedIsSound(cs, wanted);
    }
  }

  lemma {:induction false} NeverPicked(cs: seq<Candidate>, k: nat, name: string, wanted: string)
    requires k <= |cs| && name !in PickAll(cs[..k], wanted).dtbs && PickedUp(PickAll(cs[..k], wanted).dtbs, name)
    ensures name !in PickAll(cs, wanted).dtbs && PickedUp(PickAll(cs, wanted).dtbs, name)
    decreases |cs|
  {
    if k == |cs| {
      assert cs[..k] == cs;
    } else {
      var before := cs[..|cs| - 1];
      assert before[..k] == cs[..k];
      NeverPicked(before, k, name, wanted);
      var i :| 0 <= i < |PickAll(before, wanted).dtbs| && Matches(name, PickAll(before, wanted).dtbs[i]);
      assert Matches(name, PickAll(cs, wanted).dtbs[i]);
    }
  }

  /** By the candidates alone: the first one with this name brings an image, and is not taken for one
      picked before. */
  predicate Emits(cs: seq<Candidate>, name: string, wanted: string) {
    var k := First(cs, name);
    k < |cs| && cs[k].image && !PickedUp(PickAll(cs[..k], wanted).dtbs, name)
  }

  lemma {:induction false} EmittedStays(cs: seq<Candidate>, k: nat, wanted: string, name: string)
    requires k <= |cs| && name in PickAll(cs[..k], wanted).dtbs
    ensures name in PickAll(cs, wanted).fdts <==> name in PickAll(cs[..k], wanted).fdts
    decreases |cs|
  {
    if k == |cs| {
      assert cs[..k] == cs;
    } else {
      var before, c := cs[..|cs| - 1], cs[|cs| - 1];
      assert before[..k] == cs[..k];
      EmittedStays(before, k, wanted, name);
      PickedStays(before, k, wanted);
      SelfMatch(name);
    }
  }

  /** Which images are emitted. */
  lemma EmittedIff(cs: seq<Candidate>, name: string, wanted: string)
    ensures name in PickAll(cs, wanted).fdts <==> Emits(cs, name, wanted)
  {
    var k := First(cs, name);
    PickedIff(cs, name, wanted);
    PickedIsSound(cs, wanted);
    if k < |cs| && !PickedUp(PickAll(cs[..k], wanted).dtbs, name) {
      PickedIsSound(cs[..k], wanted);
      assert cs[..k + 1][..k] == cs[..k];
      assert PickAll(cs[..k + 1], wanted).dtbs[|PickAll(cs[..k], wanted).dtbs|] == name;
      assert name !in PickAll(cs[..k], wanted).dtbs;
      EmittedStays(cs, k + 1, wanted, name);
    }
  }

  // ---------------------------------------------------------------------------
  // The image source
  // ---------------------------------------------------------------------------

  /** A configuration section: its node name, its default line, what it refers to, what it signs. */
  datatype Conf = Conf(
    node: string,
    default: Option<string>,
    kernel: Option<string>,
    fdt: Option<string>,
    ramdisk: Option<string>,
    bootscr: Option<string>,
    setup: Option<string>,
    signImages: Option<seq<string>>)

  function Reference(kind: string, id: string): Option<string> {
    if id == "" then None else Some(kind + id)
  }

  function OnlyIf(present: bool, name: string): seq<string> {
    if present then [name] else []
  }

  /** The kinds, in order, whose identifiers are there. */
  function KindsOf(kernelId: string, dtb: string, ramdiskId: string, bootscrId: string, configId: string): seq<string> {
    OnlyIf(kernelId != "", "kernel") + OnlyIf(dtb != "", "fdt") + OnlyIf(ramdiskId != "", "ramdisk")
    + OnlyIf(bootscrId != "", "bootscr") + OnlyIf(configId != "", "setup")
  }

  predicate IsOverlay(name: string) {
    name == "dtbo" || EndsIn(name, ".dtbo")
  }

  function Section(p: Params, dtb: string): string {
    match PointsBelow(p, dtb)
    case Some(target) => if target == "" then dtb else target
    case None => dtb
  }

  /** A configuration section, by the arguments of fitimage_emit_section_config. */
  function ConfFrom(p: Params, kernelId: string, dtb: string, ramdiskId: string, bootscrId: string, configId: string,
                    first: bool, default: string): Conf {
    var id := if dtb != "" then dtb else kernelId;
    Conf(p.prefix + id,
         if first then Some(p.prefix + if dtb != "" && default != "" then default else id) else None,
         Reference("kernel-", kernelId),
         Reference("fdt-", if dtb != "" then Section(p, dtb) else ""),
         Reference("ramdisk-", ramdiskId), Reference("bootscr-", bootscrId), Reference("setup-", configId),
         if p.sign then Some(KindsOf(kernelId, dtb, ramdiskId, bootscrId, configId)) else None)
  }

  /** The configuration of a device tree, or of the kernel alone for an empty name. */
  function ConfOf(p: Params, dtb: string, first: bool, default: string): Conf {
    if IsOverlay(dtb) then ConfFrom(p, "", dtb, "", p.bootscr, "", first, default)
    else ConfFrom(p, "1", dtb, if p.Ramdisk() then "1" else "", p.bootscr, if p.setup then "1" else "", first, default)
  }

  function Prefixed(names: seq<string>): (r: seq<string>)
    ensures |r| == |names|
  {
    seq(|names|, i requires 0 <= i < |names| => "fdt-" + names[i])
  }

  function ImagesOf(p: Params, fdts: seq<string>): seq<string> {
    ["kernel-1"] + Prefixed(fdts)
    + OnlyIf(p.bootscr != "", "bootscr-" + p.bootscr)
    + OnlyIf(p.setup, "setup-1")
    + OnlyIf(p.Ramdisk() && !p.bundle, "ramdisk-1")
  }

  function ConfigsOf(p: Params, dtbs: seq<string>, default: string): (cs: seq<Conf>)
    ensures |cs| == if dtbs == [] then 1 else |dtbs|
  {
    if dtbs == [] then [ConfOf(p, "", true, default)]
    else seq(|dtbs|, i requires 0 <= i < |dtbs| => ConfOf(p, dtbs[i], i == 0, default))
  }

  // ---------------------------------------------------------------------------
  // What holds of every image source
  // ---------------------------------------------------------------------------

  function PickedOf(p: Params): Picked {
    PickAll(Candidates(p), p.defaultDtb)
  }

  lemma CandidateNames(p: Params)
    requires p.Valid()
    ensures forall c :: c in Candidates(p) ==> c.name != "" && (!c.image ==> PointsBelow(p, c.name).Some?)
  {
    KernelCandidateNames(p, |p.kernelDts|);
  }

  lemma {:induction false} KernelCandidateNames(p: Params, k: nat)
    requires p.Valid() && k <= |p.kernelDts|
    ensures forall c :: c in KernelCandidates(p, k) ==> c.name in p.kernelDts && c.image
  {
    if k > 0 { KernelCandidateNames(p, k - 1); }
  }

  lemma PickedNames(p: Params)
    requires p.Valid()
    ensures "" !in PickedOf(p).dtbs && Distinct(PickedOf(p).dtbs)
  {
    PickedIsSound(Candidates(p), p.defaultDtb);
    CandidateNames(p);
  }

  lemma NodeOf(p: Params, dtb: string, first: bool, default: string, c: Conf)
    requires c == ConfOf(p, dtb, first, default)
    ensures dtb != "" ==> c.node == p.prefix + dtb
    ensures c.default == if first then Some(if dtb != "" && default != "" then p.prefix + default else c.node) else None
  {
  }

  /** The node names of the configurations and the value of the default line. */
  lemma Nodes(p: Params, dtbs: seq<string>, default: string, cs: seq<Conf>) returns (nodes: seq<string>)
    requires "" !in dtbs && cs == ConfigsOf(p, dtbs, default)
    ensures |nodes| == |cs| && forall i :: 0 <= i < |cs| ==> nodes[i] == cs[i].node
    ensures dtbs != [] ==> |nodes| == |dtbs| && forall i :: 0 <= i < |dtbs| ==> nodes[i] == p.prefix + dtbs[i]
    ensures forall i :: 0 <= i < |cs| ==> (cs[i].default.Some? <==> i == 0)
    ensures cs[0].default.value == if dtbs != [] && default != "" then p.prefix + default else nodes[0]
  {
    nodes := seq(|cs|, i requires 0 <= i < |cs| => cs[i].node);
    if dtbs == [] {
      NodeOf(p, "", true, default, cs[0]);
    } else {
      forall i | 0 <= i < |cs|
        ensures cs[i].node == p.prefix + dtbs[i] && (cs[i].default.Some? <==> i == 0)
        ensures i == 0 ==> cs[i].default.value == if default != "" then p.prefix + default else cs[i].node
      {
        NodeOf(p, dtbs[i], i == 0, default, cs[i]);
      }
    }
  }

  lemma PrefixIsInjective(prefix: string, a: string, b: string)
    ensures prefix + a == prefix + b ==> a == b
  {
    assert (prefix + a)[|prefix|..] == a && (prefix + b)[|prefix|..] == b;
  }

  /** Configuration names are unique. */
  lemma NodesAreUnique(p: Params, cs: seq<Conf>)
    requires p.Valid() && cs == ConfigsOf(p, PickedOf(p).dtbs, PickedOf(p).default)
    ensures forall i, j :: 0 <= i < j < |cs| ==> cs[i].node != cs[j].node
  {
    PickedNames(p);
    var dtbs := PickedOf(p).dtbs;
    var nodes := Nodes(p, dtbs, PickedOf(p).default, cs);
    forall i, j | 0 <= i < j < |cs| ensures nodes[i] != nodes[j] {
      PrefixIsInjective(p.prefix, dtbs[i], dtbs[j]);
    }
  }

  lemma NameAmong(prefix: string, names: seq<string>, nodes: seq<string>, name: string)
    requires |nodes| == |names| && forall i :: 0 <= i < |names| ==> nodes[i] == prefix + names[i]
    ensures prefix + name in nodes <==> name in names
  {
    forall i | 0 <= i < |names| ensures nodes[i] == prefix + name <==> names[i] == name {
      PrefixIsInjective(prefix, names[i], name);
    }
    if name in names {
      var i :| 0 <= i < |names| && names[i] == name;
      assert nodes[i] in nodes;
    }
  }

  /** Exactly the first configuration carries a default line. It names an emitted configuration
      exactly when the wanted device tree, if the loops come across it, is not taken for one that
      was picked before. */
  lemma DefaultResolvesIff(p: Params, cs: seq<Conf>)
    requires p.Valid() && cs == ConfigsOf(p, PickedOf(p).dtbs, PickedOf(p).default)
    ensures forall i :: 0 <= i < |cs| ==> (cs[i].default.Some? <==> i == 0)
    ensures (exists i :: 0 <= i < |cs| && cs[i].node == cs[0].default.value) <==> !WantedIsShadowed(p)
  {
    PickedNames(p);
    WantedPicked(p);
    var dtbs, default := PickedOf(p).dtbs, PickedOf(p).default;
    var nodes := Nodes(p, dtbs, default, cs);
    if dtbs != [] && default != "" { NameAmong(p.prefix, dtbs, nodes, default); }
    assert cs[0].default.value in nodes <==> exists i :: 0 <= i < |cs| && cs[i].node == cs[0].default.value;
  }

  /** The loops come across the wanted device tree, but by then it matches a picked one. */
  predicate WantedIsShadowed(p: Params) {
    var cs, k := Candidates(p), First(Candidates(p), p.defaultDtb);
    p.defaultDtb != "" && k < |cs| && PickedUp(PickAll(cs[..k], p.defaultDtb).dtbs, p.defaultDtb)
  }

  lemma WantedPicked(p: Params)
    requires p.Valid()
    ensures WantedIsShadowed(p) <==> PickedOf(p).default != "" && PickedOf(p).default !in PickedOf(p).dtbs
    ensures WantedIsShadowed(p) ==> PickedOf(p).dtbs != []
  {
    var cs, wanted := Candidates(p), p.defaultDtb;
    CandidateNames(p);
    PickedIff(cs, wanted, wanted);
    var k := First(cs, wanted);
    if wanted == "" {
      NoDefault(cs);
    } else {
      DefaultIsWanted(cs, wanted);
      if k < |cs| {
        assert cs[k] in cs;
        PickedStays(cs, k, wanted);
      }
    }
  }

  /** Two distinct names, one of which passes for the other: the default is left dangling. */
  lemma DanglingDefault(p: Params)
    requires p.prefix == "conf-" && !p.external && p.entries == map[] && p.listing == []
    requires p.kernelDts == ["board-a.dtb", "board.a.dtb"] && p.defaultDtb == "board.a.dtb"
    ensures p.Valid() && WantedIsShadowed(p)
  {
    var a, b := Candidate("board-a.dtb", true), Candidate("board.a.dtb", true);
    assert Candidates(p) == [a, b] by {
      assert KernelCandidates(p, 1) == [a];
      assert KernelCandidates(p, 2) == [a, b];
    }
    TwoCandidates(a, b, [a, b], p.defaultDtb);
    assert Matches("board.a.dtb", "board-a.dtb");
  }

  lemma TwoCandidates(a: Candidate, b: Candidate, cs: seq<Candidate>, wanted: string)
    requires cs == [a, b] && a.name != wanted && b.name == wanted
    ensures First(cs, wanted) == 1
    ensures Matches(wanted, a.name) ==> PickedUp(PickAll(cs[..1], wanted).dtbs, wanted)
  {
    assert cs[1..] == [b] && cs[..1] == [a] && [a][..0] == [];
    assert First([b], wanted) == 0;
    assert PickAll(cs[..1], wanted).dtbs == [a.name];
    assert [a.name][0] == a.name;
  }

  lemma KindsAre(kernel: bool, fdt: bool, ramdisk: bool, bootscr: bool, setup: bool, kinds: seq<string>)
    requires kinds == OnlyIf(kernel, "kernel") + OnlyIf(fdt, "fdt") + OnlyIf(ramdisk, "ramdisk")
                      + OnlyIf(bootscr, "bootscr") + OnlyIf(setup, "setup")
    ensures "kernel" in kinds <==> kernel
    ensures "fdt" in kinds <==> fdt
    ensures "ramdisk" in kinds <==> ramdisk
    ensures "bootscr" in kinds <==> bootscr
    ensures "setup" in kinds <==> setup
  {
    assert "kernel"[0] == 'k' && "fdt"[0] == 'f' && "ramdisk"[0] == 'r' && "bootscr"[0] == 'b' && "setup"[0] == 's';
  }

  /** A section signs exactly the kinds of image that it refers to. */
  lemma SignsWhatItRefersTo(p: Params, dtb: string, first: bool, default: string)
    requires p.sign
    ensures var c := ConfOf(p, dtb, first, default);
      && ("kernel" in c.signImages.value <==> c.kernel.Some?)
      && ("fdt" in c.signImages.value <==> c.fdt.Some?)
      && ("ramdisk" in c.signImages.value <==> c.ramdisk.Some?)
      && ("bootscr" in c.signImages.value <==> c.bootscr.Some?)
      && ("setup" in c.signImages.value <==> c.setup.Some?)
  {
    var c := ConfOf(p, dtb, first, default);
    KindsAre(c.kernel.Some?, c.fdt.Some?, c.ramdisk.Some?, c.bootscr.Some?, c.setup.Some?, c.signImages.value);
  }

  lemma {:induction false} PickedWithImage(cs: seq<Candidate>, wanted: string, name: string)
    requires name in PickAll(cs, wanted).dtbs && name !in PickAll(cs, wanted).fdts
    ensures Candidate(name, false) in cs
  {
    var before, c := cs[..|cs| - 1], cs[|cs| - 1];
    if name in PickAll(before, wanted).dtbs { PickedWithImage(before, wanted, name); }
    else { assert c.name == name; assert c in cs; }
  }

  /** What a configuration can refer to. */
  lemma References(p: Params, dtb: string, first: bool, default: string, c: Conf)
    requires c == ConfOf(p, dtb, first, default)
    ensures c.kernel in {None, Some("kernel-1")}
    ensures c.fdt == if dtb == "" then None else Some("fdt-" + Section(p, dtb))
    ensures c.ramdisk in {None, Some("ramdisk-1")} && (c.ramdisk.Some? ==> p.Ramdisk())
    ensures c.bootscr in {None, Some("bootscr-" + p.bootscr)} && (c.bootscr.Some? ==> p.bootscr != "")
    ensures c.setup in {None, Some("setup-1")} && (c.setup.Some? ==> p.setup)
  {
    FirstIds();
  }

  /** What follows the last dot of a name, or all of it. */
  function AfterLastDot(name: string): string {
    if name == "" || name[|name| - 1] == '.' then "" else AfterLastDot(name[..|name| - 1]) + name[|name| - 1..]
  }

  lemma {:induction false} LastPart(name: string)
    ensures var e := AfterLastDot(name);
      && '.' !in e && |e| <= |name| && name[|name| - |e|..] == e
      && (|e| < |name| ==> name[|name| - |e| - 1] == '.')
  {
    if name != "" && name[|name| - 1] != '.' { LastPart(name[..|name| - 1]); }
  }

  lemma NoDotBehind(name: string, e: string)
    requires '.' !in e && |e| <= |name| && name[|name| - |e|..] == e
    ensures forall k :: |name| - |e| <= k < |name| ==> name[k] != '.'
  {
    forall k | |name| - |e| <= k < |name| ensures name[k] != '.' {
      assert name[k] == e[k - (|name| - |e|)];
    }
  }

  lemma TwoSuffixes(name: string, e: string, f: string)
    requires '.' !in e && '.' !in f && |e| <= |name| && |f| <= |name|
    requires name[|name| - |e|..] == e && name[|name| - |f|..] == f
    requires |e| == |name| || name[|name| - |e| - 1] == '.'
    requires |f| == |name| || name[|name| - |f| - 1] == '.'
    ensures e == f
  {
    NoDotBehind(name, e);
    NoDotBehind(name, f);
  }

  /** A name is an overlay's exactly when "dtbo" follows its last dot. */
  lemma OverlayIff(name: string)
    ensures IsOverlay(name) <==> AfterLastDot(name) == "dtbo"
  {
    var e := AfterLastDot(name);
    LastPart(name);
    if IsOverlay(name) {
      assert ".dtbo"[1..] == "dtbo" && ".dtbo"[0] == '.';
      if name != "dtbo" {
        var k := |name| - 5;
        assert name[k..] == ".dtbo" && name[k] == name[k..][0] && name[k + 1..] == name[k..][1..];
      }
      TwoSuffixes(name, e, "dtbo");
    }
    if e == "dtbo" && name != "dtbo" {
      var k := |name| - 5;
      assert name[k..] == [name[k]] + name[k + 1..];
      assert name[k..] == ".dtbo";
    }
  }

  /** The configuration of a device tree in full: always the tree itself, or the target of its link, and the boot
      script if there is one; kernel, ramdisk and setup as far as they are built, unless it is an overlay. */
  ghost predicate Configures(p: Params, dtb: string, c: Conf) {
    && c.node == p.prefix + dtb
    && c.fdt == Some("fdt-" + if dtb in p.entries && p.entries[dtb].Below? && p.entries[dtb].target != ""
                              then p.entries[dtb].target else dtb)
    && c.bootscr == (if p.bootscr != "" then Some("bootscr-" + p.bootscr) else None)
    && (c.kernel == if AfterLastDot(dtb) == "dtbo" then None else Some("kernel-1"))
    && (c.ramdisk == if AfterLastDot(dtb) != "dtbo" && p.initramfs && !p.bundle then Some("ramdisk-1") else None)
    && (c.setup == if AfterLastDot(dtb) != "dtbo" && p.setup then Some("setup-1") else None)
    && (c.signImages.Some? <==> p.sign)
  }

  /** The configuration of the kernel alone. */
  ghost predicate ConfiguresKernel(p: Params, c: Conf) {
    && c.node == p.prefix + "1" && c.kernel == Some("kernel-1") && c.fdt == None
    && c.bootscr == (if p.bootscr != "" then Some("bootscr-" + p.bootscr) else None)
    && (c.ramdisk == if p.initramfs && !p.bundle then Some("ramdisk-1") else None)
    && (c.setup == if p.setup then Some("setup-1") else None)
    && (c.signImages.Some? <==> p.sign)
  }

  lemma FirstIds()
    ensures Reference("kernel-", "1") == Some("kernel-1") && Reference("setup-", "1") == Some("setup-1")
    ensures Reference("ramdisk-", "1") == Some("ramdisk-1")
  {
    assert "kernel-" + "1" == "kernel-1" && "setup-" + "1" == "setup-1" && "ramdisk-" + "1" == "ramdisk-1";
  }

  lemma TreeIsFull(p: Params, dtb: string, first: bool, default: string, c: Conf)
    requires dtb != "" && c == ConfOf(p, dtb, first, default)
    ensures Configures(p, dtb, c)
  {
    OverlayIff(dtb);
    FirstIds();
  }

  lemma KernelIsFull(p: Params, default: string, c: Conf)
    requires c == ConfOf(p, "", true, default)
    ensures ConfiguresKernel(p, c)
  {
    FirstIds();
  }

  /** There is one configuration for each device tree picked, in order, or one for the kernel alone. */
  ghost predicate AllConfigured(p: Params, dtbs: seq<string>, cs: seq<Conf>) {
    if dtbs == [] then |cs| == 1 && ConfiguresKernel(p, cs[0])
    else |cs| == |dtbs| && forall i :: 0 <= i < |dtbs| ==> Configures(p, dtbs[i], cs[i])
  }

  lemma ConfigsAreFull(p: Params, dtbs: seq<string>, default: string, cs: seq<Conf>)
    requires "" !in dtbs && cs == ConfigsOf(p, dtbs, default)
    ensures AllConfigured(p, dtbs, cs)
  {
    if dtbs == [] {
      KernelIsFull(p, default, cs[0]);
    } else {
      forall i | 0 <= i < |dtbs| ensures Configures(p, dtbs[i], cs[i]) {
        TreeIsFull(p, dtbs[i], i == 0, default, cs[i]);
      }
    }
  }

  predicate Resolves(reference: Option<string>, images: seq<string>) {
    reference.Some? ==> reference.value in images
  }

  /** Every image that a configuration names has been emitted, exactly when the loops come across the
      device tree, or the target of its link, as a file of its own and do not take it for another. */
  lemma ReferencesResolveIff(p: Params, dtb: string, c: Conf, images: seq<string>, first: bool, default: string)
    requires p.Valid() && c == ConfOf(p, dtb, first, default) && images == ImagesOf(p, PickedOf(p).fdts)
    ensures (Resolves(c.kernel, images) && Resolves(c.fdt, images) && Resolves(c.ramdisk, images)
             && Resolves(c.bootscr, images) && Resolves(c.setup, images))
       <==> (dtb != "" ==> Emits(Candidates(p), Section(p, dtb), p.defaultDtb))
  {
    EmittedIff(Candidates(p), Section(p, dtb), p.defaultDtb);
    References(p, dtb, first, default, c);
    ImageNames(p, PickedOf(p).fdts, Section(p, dtb));
  }

  lemma PrefixedIff(fdts: seq<string>, section: string, name: string)
    requires name == "fdt-" + section
    ensures name in Prefixed(fdts) <==> section in fdts
  {
    if section in fdts {
      var i :| 0 <= i < |fdts| && fdts[i] == section;
      assert Prefixed(fdts)[i] == name;
    }
    if name in Prefixed(fdts) {
      var i :| 0 <= i < |fdts| && Prefixed(fdts)[i] == name;
      assert fdts[i] == Prefixed(fdts)[i][4..] == name[4..] == section;
    }
  }

  lemma OthersAreNoFdt(p: Params, name: string)
    requires name != "" && name[0] == 'f'
    ensures name !in ["kernel-1"] && name !in OnlyIf(p.bootscr != "", "bootscr-" + p.bootscr)
    ensures name !in OnlyIf(p.setup, "setup-1") && name !in OnlyIf(p.Ramdisk() && !p.bundle, "ramdisk-1")
  {
    assert "kernel-1"[0] == 'k' && "ramdisk-1"[0] == 'r' && "setup-1"[0] == 's';
    assert ("bootscr-" + p.bootscr)[0] == 'b';
  }

  lemma FdtImages(p: Params, fdts: seq<string>, section: string, images: seq<string>, name: string)
    requires images == ImagesOf(p, fdts) && name == "fdt-" + section
    ensures name in images <==> section in fdts
  {
    assert name[0] == 'f';
    OthersAreNoFdt(p, name);
    PrefixedIff(fdts, section, name);
  }

  lemma OtherImages(p: Params, fdts: seq<string>, images: seq<string>)
    requires images == ImagesOf(p, fdts)
    ensures "kernel-1" in images
    ensures "bootscr-" + p.bootscr in images <==> p.bootscr != ""
    ensures "setup-1" in images <==> p.setup
    ensures "ramdisk-1" in images <==> p.initramfs && !p.bundle
  {
    assert "kernel-1"[0] == 'k' && "ramdisk-1"[0] == 'r' && "setup-1"[0] == 's';
    assert ("bootscr-" + p.bootscr)[0] == 'b';
    forall i | 0 <= i < |Prefixed(fdts)| ensures Prefixed(fdts)[i][0] == 'f' {
    }
  }

  lemma ImageNames(p: Params, fdts: seq<string>, section: string)
    ensures "fdt-" + section in ImagesOf(p, fdts) <==> section in fdts
    ensures "kernel-1" in ImagesOf(p, fdts)
    ensures "bootscr-" + p.bootscr in ImagesOf(p, fdts) <==> p.bootscr != ""
    ensures "setup-1" in ImagesOf(p, fdts) <==> p.setup
    ensures "ramdisk-1" in ImagesOf(p, fdts) <==> p.initramfs && !p.bundle
  {
    FdtImages(p, fdts, section, ImagesOf(p, fdts), "fdt-" + section);
    OtherImages(p, fdts, ImagesOf(p, fdts));
  }

  /** No device tree name passes for another one. */
  ghost predicate NamesAreClear(p: Params) {
    forall c, d :: c in Candidates(p) && d in Candidates(p) && Matches(c.name, d.name) ==> c.name == d.name
  }

  lemma ClearNamesArePicked(p: Params, c: Candidate)
    requires NamesAreClear(p) && c in Candidates(p)
    ensures c.name in PickedOf(p).dtbs
  {
    var cs := Candidates(p);
    PickedIff(cs, c.name, p.defaultDtb);
    var i :| 0 <= i < |cs| && cs[i] == c;
    var k := First(cs, c.name);
    var dtbs := PickAll(cs[..k], p.defaultDtb).dtbs;
    PickedIsSound(cs[..k], p.defaultDtb);
    forall j | 0 <= j < |dtbs| ensures !Matches(c.name, dtbs[j]) {
      assert dtbs[j] in dtbs;
      var d :| d in cs[..k] && d.name == dtbs[j];
      assert d in cs;
    }
  }

  /** For example a device tree and an overlay of the kernel: both are picked, in order. */
  lemma TwoTrees(p: Params, a: Candidate, b: Candidate)
    requires p.Valid() && !p.external && p.kernelDts == ["a.dtb", "a.dtbo"] && p.defaultDtb == ""
    requires a == Candidate("a.dtb", true) && b == Candidate("a.dtbo", true)
    ensures NamesAreClear(p) && PickedOf(p) == Picked(["a.dtb", "a.dtbo"], ["a.dtb", "a.dtbo"], "")
  {
    assert Candidates(p) == [a, b] by {
      assert KernelCandidates(p, 1) == [a];
      assert KernelCandidates(p, 2) == [a, b];
    }
    assert [a, b][..1] == [a] && [a][..0] == [];
    assert PickAll([a], "") == Picked([a.name], [a.name], "");
  }

  /** A device tree that comes as a file: from the kernel, or from the listing and not as a link below
      the directory. */
  predicate Provided(p: Params, name: string) {
    (name in p.kernelDts && !HasContent(p, name)) || (name in p.listing && PointsBelow(p, name).None?)
  }

  lemma {:induction false} KernelCandidatesIff(p: Params, k: nat, c: Candidate)
    requires k <= |p.kernelDts|
    ensures c in KernelCandidates(p, k) <==> c.image && c.name in p.kernelDts[..k] && !HasContent(p, c.name)
  {
    if k > 0 {
      KernelCandidatesIff(p, k - 1, c);
      assert p.kernelDts[..k] == p.kernelDts[..k - 1] + [p.kernelDts[k - 1]];
    }
  }

  lemma ExternalCandidatesIff(p: Params, c: Candidate)
    ensures c in ExternalCandidates(p, |p.listing|) <==>
      c.name in p.listing && (c.image <==> PointsBelow(p, c.name).None?)
  {
    if c.name in p.listing {
      var i :| 0 <= i < |p.listing| && p.listing[i] == c.name;
      assert ExternalCandidates(p, |p.listing|)[i].name == c.name;
    }
  }

  lemma CandidatesIff(p: Params, c: Candidate)
    ensures c in Candidates(p) <==>
      (c.image && c.name in p.kernelDts && !HasContent(p, c.name))
      || (c.name in p.listing && (c.image <==> PointsBelow(p, c.name).None?))
  {
    KernelCandidatesIff(p, |p.kernelDts|, c);
    ExternalCandidatesIff(p, c);
    assert p.kernelDts[..|p.kernelDts|] == p.kernelDts;
  }

  lemma FirstIsEarliest(cs: seq<Candidate>, n: nat, c: Candidate)
    requires n <= |cs| && c in cs[..n]
    ensures First(cs, c.name) < n
  {
    var i :| 0 <= i < n && cs[i] == c;
  }

  /** The first candidate of a name brings its image exactly when the name is provided. */
  lemma FirstBringsImage(p: Params, name: string, k: nat)
    requires k == First(Candidates(p), name)
    ensures k < |Candidates(p)| && Candidates(p)[k].image <==> Provided(p, name)
  {
    var cs, kernel, file := Candidates(p), KernelCandidates(p, |p.kernelDts|), Candidate(name, true);
    CandidatesIff(p, file);
    if Provided(p, name) {
      assert cs[..|cs|] == cs;
      FirstIsEarliest(cs, |cs|, file);
      KernelCandidatesIff(p, |p.kernelDts|, file);
      assert p.kernelDts[..|p.kernelDts|] == p.kernelDts;
      if file in kernel {
        assert cs[..|kernel|] == kernel;
        FirstIsEarliest(cs, |kernel|, file);
        KernelCandidatesIff(p, |p.kernelDts|, kernel[k]);
      } else {
        CandidatesIff(p, cs[k]);
      }
    } else if k < |cs| {
      CandidatesIff(p, cs[k]);
    }
  }

  /** With clear names the images emitted are exactly the device trees that come as a file. */
  lemma ClearNamesEmitted(p: Params, name: string)
    requires NamesAreClear(p)
    ensures name in PickedOf(p).fdts <==> Provided(p, name)
  {
    var cs := Candidates(p);
    var k := First(cs, name);
    EmittedIff(cs, name, p.defaultDtb);
    FirstBringsImage(p, name, k);
    if k < |cs| {
      ClearNamesArePicked(p, cs[k]);
      PickedIff(cs, name, p.defaultDtb);
    }
  }

  /** Hence with clear names the references of a device tree's configuration all resolve exactly when it,
      or the target of its link, comes as a file; and the default always resolves. */
  lemma ClearNamesResolveIff(p: Params, dtb: string, c: Conf, images: seq<string>, first: bool, default: string)
    requires p.Valid() && NamesAreClear(p) && dtb in PickedOf(p).dtbs
    requires c == ConfOf(p, dtb, first, default) && images == ImagesOf(p, PickedOf(p).fdts)
    ensures (Resolves(c.kernel, images) && Resolves(c.fdt, images) && Resolves(c.ramdisk, images)
             && Resolves(c.bootscr, images) && Resolves(c.setup, images))
       <==> Provided(p, Section(p, dtb))
    ensures !WantedIsShadowed(p)
  {
    PickedNames(p);
    ReferencesResolveIff(p, dtb, c, images, first, default);
    EmittedIff(Candidates(p), Section(p, dtb), p.defaultDtb);
    ClearNamesEmitted(p, Section(p, dtb));
    if WantedIsShadowed(p) {
      WantedPicked(p);
      ClearNamesArePicked(p, Candidates(p)[First(Candidates(p), p.defaultDtb)]);
      PickedIff(Candidates(p), p.defaultDtb, p.defaultDtb);
    }
  }

  lemma LinkOnly(p: Params, name: string)
    requires p.kernelDts == [] && p.listing == [name] && PointsBelow(p, name).Some?
    ensures PickedOf(p).dtbs == [name] && PickedOf(p).fdts == []
  {
    var c := Candidate(name, false);
    assert Candidates(p) == [c];
    assert [c][..0] == [];
    assert PickAll([c], p.defaultDtb) == Pick(PickAll([], p.defaultDtb), c, p.defaultDtb);
  }

  lemma LinkIsListed(p: Params)
    requires p.external && p.kernelDts == [] && p.listing == ["a.dtb"]
    requires p.entries == map["a.dtb" := Below("b.bin"), "b.bin" := Regular(false)]
    ensures p.Valid() && PointsBelow(p, "a.dtb") == Some("b.bin")
  {
    assert EndsIn("a.dtb", ".dtb") && ["a.dtb"][0] == "a.dtb";
    assert !EndsIn("b.bin", ".dtb") && !EndsIn("b.bin", ".dtbo");
  }

  lemma LinkDangles(p: Params, dtb: string, target: string, c: Conf, first: bool, default: string)
    requires p.kernelDts == [] && p.listing == [dtb] && PointsBelow(p, dtb) == Some(target)
    requires dtb != "" && target != "" && c == ConfOf(p, dtb, first, default)
    ensures PickedOf(p).dtbs == [dtb]
    ensures c.fdt == Some("fdt-" + target) && !Resolves(c.fdt, ImagesOf(p, PickedOf(p).fdts))
  {
    LinkOnly(p, dtb);
    References(p, dtb, first, default, c);
    ImageNames(p, [], target);
  }

  /** A link to a file that is not listed: no image, but a configuration that refers to one. */
  lemma DanglingReference(p: Params, c: Conf, first: bool, default: string)
    requires p.external && p.kernelDts == [] && p.listing == ["a.dtb"]
    requires p.entries == map["a.dtb" := Below("b.bin"), "b.bin" := Regular(false)]
    requires c == ConfOf(p, "a.dtb", first, default)
    ensures p.Valid() && PickedOf(p).dtbs == ["a.dtb"]
    ensures c.fdt == Some("fdt-" + "b.bin") && !Resolves(c.fdt, ImagesOf(p, PickedOf(p).fdts))
  {
    LinkIsListed(p);
    LinkDangles(p, "a.dtb", "b.bin", c, first, default);
  }

  // ---------------------------------------------------------------------------
  // The generator
  // ---------------------------------------------------------------------------

  lemma PickNext(cs: seq<Candidate>, c: Candidate, wanted: string)
    ensures Same(PickAll(cs + [c], wanted), Pick(PickAll(cs, wanted), c, wanted))
  {
    assert (cs + [c])[..|cs|] == cs;
  }

  lemma ExternalNext(p: Params, kernel: seq<Candidate>, k: nat, dtb: string)
    requires k < |p.listing| && dtb == p.listing[k]
    ensures Same(PickAll(kernel + ExternalCandidates(p, k + 1), p.defaultDtb),
                 Pick(PickAll(kernel + ExternalCandidates(p, k), p.defaultDtb),
                      Candidate(dtb, PointsBelow(p, dtb).None?), p.defaultDtb))
  {
    var c := Candidate(dtb, PointsBelow(p, dtb).None?);
    assert kernel + ExternalCandidates(p, k + 1) == kernel + ExternalCandidates(p, k) + [c];
    PickNext(kernel + ExternalCandidates(p, k), c, p.defaultDtb);
  }

  lemma KernelNext(p: Params, k: nat, dtb: string, skip: bool)
    requires p.external || p.entries == map[]
    requires k < |p.kernelDts| && dtb == p.kernelDts[k] && skip == (p.external && HasContent(p, dtb))
    ensures var before := PickAll(KernelCandidates(p, k), p.defaultDtb);
      Same(PickAll(KernelCandidates(p, k + 1), p.defaultDtb),
           if skip then before else Pick(before, Candidate(dtb, true), p.defaultDtb))
  {
    if skip {
      assert KernelCandidates(p, k + 1) == KernelCandidates(p, k);
    } else {
      PickNext(KernelCandidates(p, k), Candidate(dtb, true), p.defaultDtb);
    }
  }

  lemma PrefixedNext(before: seq<string>, names: seq<string>, name: string)
    ensures before + Prefixed(names + [name]) == before + Prefixed(names) + ["fdt-" + name]
  {
  }

  lemma TakeNext(before: seq<Conf>, all: seq<Conf>, i: nat)
    requires i < |all|
    ensures before + all[..i] + [all[i]] == before + all[..i + 1]
  {
  }

  class Its {
    var images: seq<string>
    var configs: seq<Conf>

    constructor ()
      ensures images == [] && configs == []
    {
      images, configs := [], [];
    }

    /** fitimage_emit_section_config */
    method EmitSectionConfig(p: Params, kernelId: string, dtbImage: string, ramdiskId: string, bootscrId: string,
                             configId: string, defaultFlag: bool, defaultDtbImage: string)
      modifies this`configs
      ensures configs == old(configs)
        + [ConfFrom(p, kernelId, dtbImage, ramdiskId, bootscrId, configId, defaultFlag, defaultDtbImage)]
    {
      var below := PointsBelow(p, dtbImage);
      var section := if below.Some? then below.value else "";
      if section == "" { section := dtbImage; }
      var confNode := p.prefix + if dtbImage != "" then dtbImage else kernelId;
      var kernel := ReferenceLine("kernel-", kernelId);
      var fdt := ReferenceLine("fdt-", if dtbImage != "" then section else "");
      var ramdisk := ReferenceLine("ramdisk-", ramdiskId);
      var bootscr := ReferenceLine("bootscr-", bootscrId);
      var setup := ReferenceLine("setup-", configId);
      var default := None;
      if defaultFlag {
        default := Some(p.prefix + if dtbImage == "" then kernelId
                                   else if defaultDtbImage != "" then defaultDtbImage else dtbImage);
      }
      var signLine := None;
      if p.sign {
        var line := SignLine(kernelId, dtbImage, ramdiskId, bootscrId, configId);
        signLine := Some(line);
      }
      configs := configs + [Conf(confNode, default, kernel, fdt, ramdisk, bootscr, setup, signLine)];
    }

    static method ReferenceLine(kind: string, id: string) returns (line: Option<string>)
      ensures line == Reference(kind, id)
    {
      line := None;
      if id != "" { line := Some(kind + id); }
    }

    /** The sign-images line. */
    static method SignLine(kernelId: string, dtbImage: string, ramdiskId: string, bootscrId: string, configId: string)
        returns (line: seq<string>)
      ensures line == KindsOf(kernelId, dtbImage, ramdiskId, bootscrId, configId)
    {
      line := AddKind([], kernelId, "kernel");
      assert line == OnlyIf(kernelId != "", "kernel");
      line := AddKind(line, dtbImage, "fdt");
      line := AddKind(line, ramdiskId, "ramdisk");
      line := AddKind(line, bootscrId, "bootscr");
      line := AddKind(line, configId, "setup");
    }

    static method AddKind(line: seq<string>, id: string, kind: string) returns (longer: seq<string>)
      ensures longer == line + OnlyIf(id != "", kind)
    {
      longer := line;
      if id != "" { longer := longer + [kind]; }
    }

    /** One more image section, if it is wanted. */
    method AddImage(wanted: bool, name: string)
      modifies this`images
      ensures images == old(images) + OnlyIf(wanted, name)
    {
      if wanted { images := images + [name]; }
    }

    /** fitimage_assemble, up to the point where the tools take over. */
    method Assemble(p: Params) returns (ok: bool)
      requires p.Valid()
      modifies this
      ensures ok <==> !p.sameKeys && (p.initramfs && !p.bundle ==> p.initramfsFound)
      ensures ok ==> images == ImagesOf(p, PickedOf(p).fdts)
      ensures ok ==> configs == ConfigsOf(p, PickedOf(p).dtbs, PickedOf(p).default)
      ensures ok ==> AllConfigured(p, PickedOf(p).dtbs, configs)
    {
      if p.sameKeys { return false; }
      images, configs := ["kernel-1"], [];
      var dtbs, default := CollectDtbs(p);
      ok := EmitOthers(p, PickedOf(p).fdts);
      if !ok { return false; }
      PickedNames(p);
      EmitConfigs(p, dtbs, default);
      assert configs == [] + ConfigsOf(p, dtbs, default);
      ConfigsAreFull(p, dtbs, default, configs);
    }

    /** Steps 3 to 5: script, setup and ramdisk sections. */
    method EmitOthers(p: Params, ghost fdts: seq<string>) returns (ok: bool)
      requires images == ["kernel-1"] + Prefixed(fdts)
      modifies this`images
      ensures ok <==> (p.Ramdisk() && !p.bundle ==> p.initramfsFound)
      ensures ok ==> images == ImagesOf(p, fdts)
    {
      AddImage(p.bootscr != "", "bootscr-" + p.bootscr);
      AddImage(p.setup, "setup-1");
      if p.Ramdisk() && !p.bundle && !p.initramfsFound { return false; }
      AddImage(p.Ramdisk() && !p.bundle, "ramdisk-1");
      ok := true;
    }

    /** Step 2: the loops over KERNEL_DEVICETREE and over the external directory. */
    method CollectDtbs(p: Params) returns (dtbs: seq<string>, default: string)
      requires p.Valid()
      modifies this`images
      ensures dtbs == PickedOf(p).dtbs && default == PickedOf(p).default
      ensures images == old(images) + Prefixed(PickedOf(p).fdts)
    {
      ghost var picked, kernel, before := Picked([], [], ""), KernelCandidates(p, |p.kernelDts|), images;
      dtbs, default, picked := CollectKernelDtbs(p);
      var k := 0;
      assert kernel + ExternalCandidates(p, 0) == kernel;
      while k < |p.listing|
        invariant k <= |p.listing| && dtbs == picked.dtbs && default == picked.default
        invariant Same(picked, PickAll(kernel + ExternalCandidates(p, k), p.defaultDtb))
        invariant images == before + Prefixed(picked.fdts)
      {
        var dtb := p.listing[k];
        // a link is skipped as well; its configuration will point at the target
        ExternalNext(p, kernel, k, dtb);
        dtbs, default, picked := Take(p, dtbs, default, dtb, PointsBelow(p, dtb).None?, before, picked);
        k := k + 1;
      }
    }

    method CollectKernelDtbs(p: Params) returns (dtbs: seq<string>, default: string, ghost picked: Picked)
      requires p.external || p.entries == map[]
      modifies this`images
      ensures Same(picked, PickAll(KernelCandidates(p, |p.kernelDts|), p.defaultDtb))
      ensures dtbs == picked.dtbs && default == picked.default
      ensures images == old(images) + Prefixed(picked.fdts)
    {
      dtbs, default, picked := [], "", Picked([], [], "");
      ghost var before := images;
      var k := 0;
      while k < |p.kernelDts|
        invariant k <= |p.kernelDts| && dtbs == picked.dtbs && default == picked.default
        invariant Same(picked, PickAll(KernelCandidates(p, k), p.defaultDtb))
        invariant images == before + Prefixed(picked.fdts)
      {
        dtbs, default, picked := KernelRound(p, k, dtbs, default, before, picked);
        k := k + 1;
      }
    }

    /** A device tree that the external directory provides as well is skipped. */
    method KernelRound(p: Params, k: nat, dtbs: seq<string>, default: string, ghost before: seq<string>,
                       ghost picked: Picked)
        returns (dtbs': seq<string>, default': string, ghost picked': Picked)
      requires (p.external || p.entries == map[]) && k < |p.kernelDts|
      requires Same(picked, PickAll(KernelCandidates(p, k), p.defaultDtb))
      requires dtbs == picked.dtbs && default == picked.default && images == before + Prefixed(picked.fdts)
      modifies this`images
      ensures Same(picked', PickAll(KernelCandidates(p, k + 1), p.defaultDtb))
      ensures dtbs' == picked'.dtbs && default' == picked'.default && images == before + Prefixed(picked'.fdts)
    {
      dtbs', default', picked' := dtbs, default, picked;
      var dtb := p.kernelDts[k];
      var skip := p.external && HasContent(p, dtb);
      KernelNext(p, k, dtb, skip);
      if !skip { dtbs', default', picked' := Take(p, dtbs, default, dtb, true, before, picked); }
    }

    /** The rest of a round of either loop: note the default, skip what has been picked up, emit the image. */
    method Take(p: Params, dtbs: seq<string>, default: string, dtb: string, image: bool, ghost before: seq<string>,
                ghost picked: Picked)
        returns (dtbs': seq<string>, default': string, ghost picked': Picked)
      requires dtbs == picked.dtbs && default == picked.default && images == before + Prefixed(picked.fdts)
      modifies this`images
      ensures Same(picked', Pick(picked, Candidate(dtb, image), p.defaultDtb))
      ensures dtbs' == picked'.dtbs && default' == picked'.default && images == before + Prefixed(picked'.fdts)
    {
      dtbs', default', picked' := dtbs, default, Pick(picked, Candidate(dtb, image), p.defaultDtb);
      if p.defaultDtb == dtb { default' := dtb; }
      if !PickedUp(dtbs, dtb) {
        dtbs' := dtbs + [dtb];
        if image {
          PrefixedNext(before, picked.fdts, dtb);
          images := images + ["fdt-" + dtb];
        }
      }
    }

    /** Step 6: one configuration for each device tree, or one for the kernel alone. */
    method EmitConfigs(p: Params, dtbs: seq<string>, default: string)
      requires "" !in dtbs
      modifies this`configs
      ensures configs == old(configs) + ConfigsOf(p, dtbs, default)
    {
      var ramdiskcount, setupcount := if p.Ramdisk() then "1" else "", if p.setup then "1" else "";
      if dtbs != [] {
        ghost var all := ConfigsOf(p, dtbs, default);
        var i := 0;
        while i < |dtbs|
          invariant i <= |dtbs| && configs == old(configs) + all[..i]
        {
          ghost var before := configs;
          if IsOverlay(dtbs[i]) {
            EmitSectionConfig(p, "", dtbs[i], "", p.bootscr, "", i == 0, default);
          } else {
            EmitSectionConfig(p, "1", dtbs[i], ramdiskcount, p.bootscr, setupcount, i == 0, default);
          }
          assert configs == before + [all[i]];
          TakeNext(old(configs), all, i);
          i := i + 1;
        }
        assert all[..i] == all;
      } else {
        EmitSectionConfig(p, "1", "", ramdiskcount, p.bootscr, setupcount, true, default);
      }
    }
  }
}
