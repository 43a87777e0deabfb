/** Which boot entry is launched (bootloader/main.c, lines 661-689 and 819-964).

    The entries come from the main ini file and, for a list or an identifier not found there, from a
    directory of ini files. Parsing is not modelled; a parsed file is a sequence of sections. */
module BootSelect {

  import opened Options

  datatype Kind = Choice | Caption | ChangeLine | Newline | Comment

  datatype Kv = Kv(key: string, val: string)

  datatype Section = Section(kind: Kind, name: string, kvs: seq<Kv>)

  /** `b_cfg` and its flags */
  datatype BootCfg = BootCfg(autobootEn: bool, fromIdFlag: bool, rawId: seq<char>, autoboot: nat, autobootList: nat)
  {
    predicate FromId() { fromIdFlag && autobootEn }

    /** The identifier as a C string, cut by the terminator that line 828 puts into its last byte */
    function Id(): string
      requires |rawId| == 8
    {
      CString(rawId[..7])
    }
  }

  function CString(s: seq<char>): string
    decreases s
  {
    if s == [] || s[0] == '\0' then "" else [s[0]] + CString(s[1..])
  }

  /** A C string ends before its first terminator. */
  lemma {:induction false} CStringIs(s: seq<char>)
    ensures var r := CString(s);
            |r| <= |s| && r == s[..|r|] && '\0' !in r && (|r| < |s| ==> s[|r|] == '\0')
    decreases s
  {
    if s != [] && s[0] != '\0' { CStringIs(s[1..]); }
  }

  /** `atoi` into an unsigned word */
  type Num = string -> nat

  type Settings = map<string, nat>

  const CONFIG_KEYS: set<string> := {"autoboot", "autoboot_list", "backlight", "noticker", "autohosoff", "autonogc",
                                     "updater2p", "bootprotect", "autokeys", "autosecmon"}

  /** What selecting an entry sets beside the entry */
  datatype Entry = Entry(logo: Option<string>, emupath: Option<string>, forceDisable: bool, bootWait: nat)

  // ----- Keys of a section -----

  /** The value of the last such key */
  function Last(kvs: seq<Kv>, key: string): Option<string>
    decreases kvs
  {
    if kvs == [] then None
    else if kvs[|kvs| - 1].key == key then Some(kvs[|kvs| - 1].val)
    else Last(kvs[..|kvs| - 1], key)
  }

  lemma {:induction false} LastIs(kvs: seq<Kv>, key: string)
    ensures match Last(kvs, key)
            case None => forall i :: 0 <= i < |kvs| ==> kvs[i].key != key
            case Some(v) => exists i :: 0 <= i < |kvs| && kvs[i] == Kv(key, v) &&
                                        forall j :: i < j < |kvs| ==> kvs[j].key != key
    decreases kvs
  {
    if kvs != [] && kvs[|kvs| - 1].key != key {
      var n := |kvs| - 1;
      LastIs(kvs[..n], key);
      if Last(kvs, key).Some? {
        var v := Last(kvs, key).value;
        var i :| 0 <= i < n && kvs[..n][i] == Kv(key, v) && forall j :: i < j < n ==> kvs[..n][j].key != key;
        assert kvs[i] == Kv(key, v);
        forall j | i < j < |kvs| ensures kvs[j].key != key { if j < n { assert kvs[j] == kvs[..n][j]; } }
      } else {
        forall i | 0 <= i < |kvs| ensures kvs[i].key != key { if i < n { assert kvs[i] == kvs[..n][i]; } }
      }
    } else if kvs != [] {
      assert kvs[|kvs| - 1] == Kv(key, kvs[|kvs| - 1].val);
    }
  }

  function LastOr(kvs: seq<Kv>, key: string, before: Option<string>): Option<string>
  {
    var l := Last(kvs, key);
    if l.Some? then l else before
  }

  function LastNum(kvs: seq<Kv>, key: string, num: Num, before: nat): nat
  {
    var l := Last(kvs, key);
    if l.Some? then num(l.value) else before
  }

  /** The entry settings after the keys of a section; only a boot by number honours its waiting time. */
  function Read(e: Entry, kvs: seq<Kv>, num: Num, withWait: bool): Entry
  {
    Entry(LastOr(kvs, "logopath", e.logo), LastOr(kvs, "emupath", e.emupath),
          LastNum(kvs, "emummc_force_disable", num, if e.forceDisable then 1 else 0) != 0,
          if withWait then LastNum(kvs, "bootwait", num, e.bootWait) else e.bootWait)
  }

  function Configured(cfg: Settings, kvs: seq<Kv>, num: Num): Settings
  {
    map k | k in cfg :: if k in CONFIG_KEYS then LastNum(kvs, k, num, cfg[k]) else cfg[k]
  }

  /** The value of the first `id` key */
  function FirstId(kvs: seq<Kv>): Option<string>
    decreases kvs
  {
    if kvs == [] then None else if kvs[0].key == "id" then Some(kvs[0].val) else FirstId(kvs[1..])
  }

  predicate Matches(id: string, s: Section) { id != "" && FirstId(s.kvs) == Some(id) }

  /** The keys before the first `id` key of another value */
  function Scanned(kvs: seq<Kv>, id: string): seq<Kv>
    decreases kvs
  {
    if kvs == [] || (kvs[0].key == "id" && (id == "" || kvs[0].val != id)) then [] else [kvs[0]] + Scanned(kvs[1..], id)
  }

  // ----- The sections that count -----

  function Choices(s: seq<Section>): seq<Section>
    decreases s
  {
    if s == [] then []
    else Choices(s[..|s| - 1]) + if s[|s| - 1].kind.Choice? then [s[|s| - 1]] else []
  }

  function NotConfig(s: seq<Section>): seq<Section>
    decreases s
  {
    if s == [] then []
    else NotConfig(s[..|s| - 1]) + if s[|s| - 1].name != "config" then [s[|s| - 1]] else []
  }

  /** The first section named `config`, or the length */
  function ConfigAt(c: seq<Section>): (r: nat)
    ensures r <= |c| && (r < |c| ==> c[r].name == "config") && forall j :: 0 <= j < r ==> c[j].name != "config"
    decreases c
  {
    if c == [] || c[0].name == "config" then 0 else 1 + ConfigAt(c[1..])
  }

  /** Everything but the first `config` */
  function Rest(c: seq<Section>): seq<Section>
  {
    var k := ConfigAt(c);
    if k < |c| then c[..k] + c[k + 1..] else c
  }

  /** The first section with that identifier, or the length */
  function MatchAt(c: seq<Section>, id: string): (r: nat)
    ensures r <= |c| && (r < |c| ==> Matches(id, c[r])) && forall j :: 0 <= j < r ==> !Matches(id, c[j])
    decreases c
  {
    if c == [] || Matches(id, c[0]) then 0 else 1 + MatchAt(c[1..], id)
  }

  function At(c: seq<Section>, k: int): Option<Section> { if 0 <= k < |c| then Some(c[k]) else None }

  // ----- The selection -----

  /** The section named `config` is reached, unless an entry before it has the identifier. */
  predicate SeesConfig(b: BootCfg, c: seq<Section>)
    requires |b.rawId| == 8
  {
    ConfigAt(c) < |c| && !(b.FromId() && MatchAt(Rest(c), b.Id()) < ConfigAt(c))
  }

  /** It is, just when one exists, with no entry before it that has the identifier. */
  lemma SeesConfigIs(b: BootCfg, c: seq<Section>)
    requires |b.rawId| == 8
    ensures SeesConfig(b, c) <==>
            ConfigAt(c) < |c| && (b.FromId() ==> forall j :: 0 <= j < ConfigAt(c) ==> !Matches(b.Id(), c[j]))
  {
    hide Matches;
    var k, r, id := ConfigAt(c), Rest(c), b.Id();
    if k < |c| {
      forall j | 0 <= j < k ensures r[j] == c[j] {}
      if MatchAt(r, id) < k { assert Matches(id, c[MatchAt(r, id)]); }
    }
  }

  predicate HasAutoboot(cfg: Settings) { CONFIG_KEYS <= cfg.Keys && "bootwait" in cfg }

  /** The settings of the `config` section, unless the boot configuration overrides which entry to start */
  function Overridden(b: BootCfg, num: Num, cfg: Settings, kvs: seq<Kv>): Settings
  {
    var c := Configured(cfg, kvs, num);
    if b.autobootEn then c["autoboot" := b.autoboot]["autoboot_list" := b.autobootList] else c
  }

  /** The settings after the main file with these choices */
  function SettingsAfter(b: BootCfg, num: Num, cfg: Settings, c: seq<Section>): (r: Settings)
    requires |b.rawId| == 8 && HasAutoboot(cfg)
    ensures HasAutoboot(r)
  {
    if SeesConfig(b, c) then Overridden(b, num, cfg, c[ConfigAt(c)].kvs) else cfg
  }

  function WaitAfter(b: BootCfg, num: Num, wait: nat, c: seq<Section>): nat
    requires |b.rawId| == 8
  {
    if SeesConfig(b, c) then LastNum(c[ConfigAt(c)].kvs, "bootwait", num, wait) else wait
  }

  /** The entry of the main file */
  function MainSelected(b: BootCfg, after: Settings, c: seq<Section>): Option<Section>
    requires |b.rawId| == 8 && HasAutoboot(after)
  {
    if b.FromId() then At(Rest(c), MatchAt(Rest(c), b.Id()))
    else if after["autoboot_list"] == 0 && after["autoboot"] > ConfigAt(c) then At(c, after["autoboot"])
    else None
  }

  /** The entry of the list */
  function ListSelected(b: BootCfg, after: Settings, l: seq<Section>): Option<Section>
    requires |b.rawId| == 8 && HasAutoboot(after)
  {
    At(l, if b.FromId() then MatchAt(l, b.Id()) else after["autoboot"] as int - 1)
  }

  /** The entry a boot selects. A file that cannot be parsed is None. */
  function Selected(b: BootCfg, num: Num, cfg: Settings, main: Option<seq<Section>>, list: Option<seq<Section>>)
    : Option<Section>
    requires |b.rawId| == 8 && HasAutoboot(cfg)
  {
    if main.None? then None
    else
      var after := SettingsAfter(b, num, cfg, Choices(main.value));
      var m := MainSelected(b, after, Choices(main.value));
      if m.Some? then m
      else if (after["autoboot_list"] != 0 || b.FromId()) && list.Some? then
        ListSelected(b, after, NotConfig(Choices(list.value)))
      else None
  }

  /** What is set beside the entry depends on the selected section alone. */
  function SelectedValues(b: BootCfg, num: Num, wait: nat, s: Option<Section>): Entry
    requires |b.rawId| == 8
  {
    var none := Entry(None, None, false, wait);
    if s.None? then none
    else if b.FromId() then Read(none, Scanned(s.value.kvs, b.Id()), num, false)
    else Read(none, s.value.kvs, num, true)
  }

  // ----- Prefixes of a list -----

  lemma Snoc(s: seq<Section>, x: Section)
    ensures Choices(s + [x]) == Choices(s) + if x.kind.Choice? then [x] else []
    ensures NotConfig(s + [x]) == NotConfig(s) + if x.name != "config" then [x] else []
  {
    assert (s + [x])[..|s|] == s;
  }

  lemma SnocOf(a: seq<Section>, b: seq<Section>)
    requires b != []
    ensures b == b[..|b| - 1] + [b[|b| - 1]] && a + b == (a + b[..|b| - 1]) + [b[|b| - 1]]
  {
  }

  lemma {:induction false} ChoicesJoin(a: seq<Section>, b: seq<Section>)
    ensures Choices(a + b) == Choices(a) + Choices(b)
    decreases b
  {
    hide Choices;
    if b == [] {
      NoChoices("");
      assert a + b == a;
    } else {
      var c, x := b[..|b| - 1], b[|b| - 1];
      ChoicesJoin(a, c);
      SnocOf(a, b);
      Snoc(c, x);
      Snoc(a + c, x);
    }
  }

  lemma {:induction false} NotConfigJoin(a: seq<Section>, b: seq<Section>)
    ensures NotConfig(a + b) == NotConfig(a) + NotConfig(b)
    decreases b
  {
    hide NotConfig;
    if b == [] {
      NoChoices("");
      assert a + b == a;
    } else {
      var c, x := b[..|b| - 1], b[|b| - 1];
      NotConfigJoin(a, c);
      SnocOf(a, b);
      Snoc(c, x);
      Snoc(a + c, x);
    }
  }

  lemma ChoicesStep(s: seq<Section>, i: nat)
    requires i < |s|
    ensures Choices(s[..i + 1]) == Choices(s[..i]) + if s[i].kind.Choice? then [s[i]] else []
  {
    assert s[..i + 1][..i] == s[..i];
  }

  /** The choices up to section i, section i, and the choices behind it */
  lemma ChoicesAround(s: seq<Section>, i: nat)
    requires i < |s|
    ensures var x := if s[i].kind.Choice? then [s[i]] else [];
            Choices(s[..i + 1]) == Choices(s[..i]) + x && Choices(s) == Choices(s[..i]) + x + Choices(s[i + 1..])
  {
    hide Choices;
    SplitAt(s, i + 1);
    ChoicesStep(s, i);
    ChoicesJoin(s[..i + 1], s[i + 1..]);
  }

  lemma SplitAt(s: seq<Section>, i: nat)
    requires i <= |s|
    ensures s[..i] + s[i..] == s
  {
  }

  /** The list's entries up to section i, section i, and those behind it */
  lemma EntriesAround(s: seq<Section>, i: nat)
    requires i < |s|
    ensures var x := if s[i].kind.Choice? && s[i].name != "config" then [s[i]] else [];
            NotConfig(Choices(s[..i + 1])) == NotConfig(Choices(s[..i])) + x &&
            NotConfig(Choices(s)) == NotConfig(Choices(s[..i])) + x + NotConfig(Choices(s[i + 1..]))
  {
    hide Choices;
    ChoicesAround(s, i);
    var x := if s[i].kind.Choice? then [s[i]] else [];
    NotConfigJoin(Choices(s[..i]), x);
    NotConfigJoin(Choices(s[..i]) + x, Choices(s[i + 1..]));
    assert x[..0] == [];
  }

  lemma ConfigAtIs(c: seq<Section>, k: nat)
    requires k <= |c| && (k < |c| ==> c[k].name == "config") && forall j :: 0 <= j < k ==> c[j].name != "config"
    ensures ConfigAt(c) == k
  {
  }

  lemma MatchAtIs(c: seq<Section>, id: string, k: nat)
    requires k <= |c| && (k < |c| ==> Matches(id, c[k])) && forall j :: 0 <= j < k ==> !Matches(id, c[j])
    ensures MatchAt(c, id) == k
  {
  }

  /** How the first `config` and the rest grow with more sections */
  lemma RestAfterConfig(c: seq<Section>, d: seq<Section>)
    requires ConfigAt(c) < |c|
    ensures ConfigAt(c + d) == ConfigAt(c) && Rest(c + d) == Rest(c) + d
  {
    hide ConfigAt;
    var k := ConfigAt(c);
    forall j | 0 <= j < k ensures (c + d)[j].name != "config" { assert (c + d)[j] == c[j]; }
    ConfigAtIs(c + d, k);
    WithoutAt(c, d, k);
  }

  lemma WithoutAt(c: seq<Section>, d: seq<Section>, k: nat)
    requires k < |c|
    ensures (c + d)[..k] + (c + d)[k + 1..] == c[..k] + c[k + 1..] + d
  {
  }

  lemma RestAtConfig(c: seq<Section>, x: Section, d: seq<Section>)
    requires ConfigAt(c) == |c| && x.name == "config"
    ensures ConfigAt(c + [x] + d) == |c| && Rest(c) == c && Rest(c + [x] + d) == c + d
  {
    hide ConfigAt;
    var e := c + [x] + d;
    forall j | 0 <= j < |c| ensures e[j].name != "config" { assert e[j] == c[j]; }
    ConfigAtIs(e, |c|);
    assert e[..|c|] == c && e[|c| + 1..] == d;
  }

  lemma RestBeforeConfig(c: seq<Section>, x: Section, d: seq<Section>)
    requires ConfigAt(c) == |c| && x.name != "config"
    ensures ConfigAt(c + [x] + d) > |c| && Rest(c) == c
    ensures |c| < |Rest(c + [x] + d)| && Rest(c + [x] + d)[..|c| + 1] == c + [x]
    ensures ConfigAt(c + [x]) == |c| + 1
  {
    hide ConfigAt;
    var e := c + [x] + d;
    var k := ConfigAt(e);
    assert e[..|c| + 1] == c + [x];
    forall j | 0 <= j <= |c| ensures e[j].name != "config" { assert e[j] == (c + [x])[j]; }
    if k < |e| { assert (e[..k] + e[k + 1..])[..|c| + 1] == e[..|c| + 1]; }
    ConfigAtIs(c + [x], |c| + 1);
  }

  /** A section of the rest that is the first to have the identifier is the match of the whole. */
  lemma MatchInPrefix(r: seq<Section>, id: string, a: seq<Section>, x: Section)
    requires |a| < |r| && r[..|a| + 1] == a + [x] && MatchAt(a, id) == |a| && Matches(id, x)
    ensures MatchAt(r, id) == |a| && r[|a|] == x
  {
    forall j | 0 <= j < |a| ensures r[j] == a[j] { assert r[..|a| + 1][j] == a[j]; }
    assert r[..|a| + 1][|a|] == x;
    MatchAtIs(r, id, |a|);
  }

  lemma NoMatchYet(a: seq<Section>, id: string, x: Section)
    requires MatchAt(a, id) == |a| && !Matches(id, x)
    ensures MatchAt(a + [x], id) == |a| + 1
  {
    MatchAtIs(a + [x], id, |a| + 1);
  }

  // ----- Keys -----

  lemma LastStep(kvs: seq<Kv>, i: nat, key: string)
    requires i < |kvs|
    ensures Last(kvs[..i + 1], key) == if kvs[i].key == key then Some(kvs[i].val) else Last(kvs[..i], key)
  {
    assert kvs[..i + 1][..i] == kvs[..i];
  }

  lemma ReadStep(e: Entry, kvs: seq<Kv>, i: nat, num: Num, withWait: bool)
    requires i < |kvs|
    ensures Read(e, kvs[..i + 1], num, withWait) == OneKey(Read(e, kvs[..i], num, withWait), kvs[i], num, withWait)
  {
    hide Last;
    LastStep(kvs, i, "logopath");
    LastStep(kvs, i, "emupath");
    LastStep(kvs, i, "emummc_force_disable");
    LastStep(kvs, i, "bootwait");
  }

  /** Lines 903-910 on one key */
  function OneKey(e: Entry, kv: Kv, num: Num, withWait: bool): Entry
  {
    if kv.key == "logopath" then e.(logo := Some(kv.val))
    else if kv.key == "emupath" then e.(emupath := Some(kv.val))
    else if kv.key == "emummc_force_disable" then e.(forceDisable := num(kv.val) != 0)
    else if kv.key == "bootwait" && withWait then e.(bootWait := num(kv.val))
    else e
  }

  lemma ConfiguredStep(cfg: Settings, kvs: seq<Kv>, i: nat, num: Num)
    requires i < |kvs| && CONFIG_KEYS <= cfg.Keys
    ensures Configured(cfg, kvs[..i + 1], num)
         == if kvs[i].key in CONFIG_KEYS then Configured(cfg, kvs[..i], num)[kvs[i].key := num(kvs[i].val)]
            else Configured(cfg, kvs[..i], num)
  {
    hide Last;
    forall k: string ensures Last(kvs[..i + 1], k) == if kvs[i].key == k then Some(kvs[i].val) else Last(kvs[..i], k) {
      LastStep(kvs, i, k);
    }
  }

  /** An `id` key stands among the first n keys. */
  predicate HasId(kvs: seq<Kv>, n: nat)
    requires n <= |kvs|
  {
    exists j :: 0 <= j < n && kvs[j].key == "id"
  }

  lemma HasIdStep(kvs: seq<Kv>, n: nat)
    requires n < |kvs|
    ensures HasId(kvs, n + 1) <==> kvs[0].key == "id" || HasId(kvs[1..], n)
    ensures !HasId(kvs, 0)
  {
    forall j | 0 <= j < n ensures kvs[j + 1] == kvs[1..][j] {}
    if HasId(kvs, n + 1) && kvs[0].key != "id" {
      var j :| 0 <= j < n + 1 && kvs[j].key == "id";
      assert kvs[1..][j - 1].key == "id";
    }
    if HasId(kvs[1..], n) {
      var j :| 0 <= j < n && kvs[1..][j].key == "id";
      assert kvs[j + 1].key == "id";
    }
  }

  /** The key ends the scan for the identifier. */
  predicate Stops(kv: Kv, id: string) { kv.key == "id" && (id == "" || kv.val != id) }

  /** Where the scan of a section for an identifier stops, and that it passes an `id` key just when the first
      one is the identifier */
  lemma {:induction false} ScanSplit(kvs: seq<Kv>, id: string)
    ensures var n := |Scanned(kvs, id)|;
            n <= |kvs| && Scanned(kvs, id) == kvs[..n] &&
            (forall j :: 0 <= j < n ==> !Stops(kvs[j], id)) && (n < |kvs| ==> Stops(kvs[n], id)) &&
            (id != "" && FirstId(kvs) == Some(id) <==> HasId(kvs, n))
    decreases kvs
  {
    hide HasId;
    if kvs == [] || Stops(kvs[0], id) {
      NoIdYet(kvs);
    } else {
      ScanSplit(kvs[1..], id);
      var n := |Scanned(kvs[1..], id)|;
      HasIdStep(kvs, n);
      assert kvs[..n + 1] == [kvs[0]] + kvs[1..][..n];
      forall j | 0 <= j < n + 1 ensures !Stops(kvs[j], id) {
        if j > 0 { assert kvs[j] == kvs[1..][j - 1]; }
      }
    }
  }

  lemma NoIdYet(kvs: seq<Kv>)
    ensures !HasId(kvs, 0)
  {
  }

  /** With one `id` key at most, a section that has the identifier is read to its end. */
  lemma OneIdIsWhole(s: Section, id: string)
    requires Matches(id, s) && forall i, j :: 0 <= i < j < |s.kvs| ==> !(s.kvs[i].key == "id" == s.kvs[j].key)
    ensures Scanned(s.kvs, id) == s.kvs
  {
    ScanSplit(s.kvs, id);
  }

  // ----- The code -----

  class Launcher {
    const num: Num
    const b: BootCfg
    var cfg: Settings
    var forceDisable: bool
    var logo: Option<string>
    var emupath: Option<string>
    var bootWait: nat

    constructor (n: Num, boot: BootCfg, settings: Settings)
      ensures num == n && b == boot && cfg == settings && !forceDisable
    {
      num, b, cfg, forceDisable, logo, emupath, bootWait := n, boot, settings, false, None, None, 0;
    }

    function Values(): Entry
      reads this
    {
      Entry(logo, emupath, forceDisable, bootWait)
    }

    /** Lines 903-910, and 674-679 without the waiting time */
    method ReadKey(kv: Kv, withWait: bool)
      modifies this`logo, this`emupath, this`forceDisable, this`bootWait
      ensures Values() == OneKey(old(Values()), kv, num, withWait)
    {
      if kv.key == "logopath" { logo := Some(kv.val); }
      else if kv.key == "emupath" { emupath := Some(kv.val); }
      else if kv.key == "emummc_force_disable" { forceDisable := num(kv.val) != 0; }
      else if withWait && kv.key == "bootwait" { bootWait := num(kv.val); }
    }

    /** Lines 901-911 and 948-958 */
    method ReadEntry(kvs: seq<Kv>)
      modifies this`logo, this`emupath, this`forceDisable, this`bootWait
      ensures Values() == Read(old(Values()), kvs, num, true)
    {
      hide Read, OneKey;
      ghost var e := Values();
      ReadNothing(e, num, true);
      for i := 0 to |kvs|
        invariant Values() == Read(e, kvs[..i], num, true)
      {
        ReadStep(e, kvs, i, num, true);
        ReadKey(kvs[i], true);
      }
      assert kvs[..|kvs|] == kvs;
    }

    /** `_get_ini_sec_from_id` */
    method GetIniSecFromId(s: Section) returns (found: bool)
      requires |b.rawId| == 8
      modifies this`logo, this`emupath, this`forceDisable, this`bootWait
      ensures found == Matches(b.Id(), s)
      ensures Values() == if found then Read(old(Values()), Scanned(s.kvs, b.Id()), num, false)
                          else Entry(None, None, false, old(bootWait))
    {
      hide Read, OneKey, FirstId, Scanned;
      var id := b.Id();
      ghost var e := Values();
      found := false;
      ScanSplit(s.kvs, id);
      ReadNothing(e, num, false);
      var i := 0;
      while i < |s.kvs|
        invariant i <= |Scanned(s.kvs, id)|
        invariant found <==> exists j :: 0 <= j < i && s.kvs[j].key == "id"
        invariant Values() == Read(e, s.kvs[..i], num, false)
      {
        var kv := s.kvs[i];
        if kv.key == "id" {
          if id != "" && kv.val != "" && id == kv.val { found := true; } else { break; }
        }
        ReadStep(e, s.kvs, i, num, false);
        ReadKey(kv, false);
        i := i + 1;
      }
      KeepsWait(e, s.kvs[..i], num);
      if !found { emupath, logo, forceDisable := None, None, false; }
    }

    /** Lines 854-878 */
    method ReadConfig(kvs: seq<Kv>)
      requires HasAutoboot(cfg)
      modifies this`cfg, this`bootWait
      ensures cfg == Configured(old(cfg), kvs, num) && bootWait == LastNum(kvs, "bootwait", num, old(bootWait))
    {
      hide Last;
      ghost var cfg0, wait := cfg, bootWait;
      ConfiguredNothing(cfg, wait, num);
      for i := 0 to |kvs|
        invariant cfg == Configured(cfg0, kvs[..i], num) && bootWait == LastNum(kvs[..i], "bootwait", num, wait)
      {
        ConfiguredStep(cfg0, kvs, i, num);
        LastStep(kvs, i, "bootwait");
        if kvs[i].key in CONFIG_KEYS { cfg := cfg[kvs[i].key := num(kvs[i].val)]; }
        else if kvs[i].key == "bootwait" { bootWait := num(kvs[i].val); }
      }
      assert kvs[..|kvs|] == kvs;
    }

    /** Lines 853-886 */
    method TakeConfig(kvs: seq<Kv>)
      requires HasAutoboot(cfg)
      modifies this`cfg, this`bootWait
      ensures cfg == Overridden(b, num, old(cfg), kvs) && bootWait == LastNum(kvs, "bootwait", num, old(bootWait))
      ensures HasAutoboot(cfg)
    {
      ReadConfig(kvs);
      if b.autobootEn { cfg := cfg["autoboot" := b.autoboot]["autoboot_list" := b.autobootList]; }
    }

    /** Lines 843-917: the main file */
    method MainSections(main: seq<Section>) returns (sel: Option<Section>)
      requires |b.rawId| == 8 && HasAutoboot(cfg) && Values() == Entry(None, None, false, bootWait)
      modifies this
      ensures cfg == SettingsAfter(b, num, old(cfg), Choices(main))
      ensures sel == MainSelected(b, cfg, Choices(main))
      ensures Values() == SelectedValues(b, num, WaitAfter(b, num, old(bootWait), Choices(main)), sel)
    {
      hide Choices, ConfigAt, MatchAt, Rest, Matches, Read, Overridden, LastNum, Scanned;
      var bootEntryId := 0;
      var configFound := false;
      ghost var c, cfg0, wait := Choices(main), cfg, bootWait;
      ghost var id := b.Id();
      NoChoices(id);
      for i := 0 to |main|
        invariant bootEntryId == |Choices(main[..i])|
        invariant configFound <==> ConfigAt(Choices(main[..i])) < |Choices(main[..i])|
        invariant Passed(b, num, cfg0, wait, Choices(main[..i]), cfg, bootWait)
        invariant HasAutoboot(cfg) && Values() == Entry(None, None, false, bootWait)
      {
        ChoicesAround(main, i);
        var s := main[i];
        ghost var ci, d, w := Choices(main[..i]), Choices(main[i + 1..]), bootWait;
        if s.kind.Choice? {
          if !configFound && s.name == "config" {
            configFound := true;
            TakeConfig(s.kvs);
            bootEntryId := bootEntryId + 1;
            PassedConfig(b, num, cfg0, wait, ci, s, d);
            if !b.FromId() && cfg["autoboot_list"] != 0 { return None; }
            continue;
          }
          if b.FromId() {
            var found := GetIniSecFromId(s);
            if found {
              FoundById(b, num, cfg0, wait, ci, s, d, cfg, w);
              return Some(s);
            }
          } else if cfg["autoboot"] == bootEntryId && configFound {
            ReadEntry(s.kvs);
            FoundByNumber(b, num, cfg0, wait, ci, s, d, cfg, w);
            return Some(s);
          }
          PassedEntry(b, num, cfg0, wait, ci, s, cfg, w);
          bootEntryId := bootEntryId + 1;
        } else {
          assert Choices(main[..i + 1]) == ci;
        }
      }
      assert main[..|main|] == main;
      PassedAll(b, num, cfg0, wait, c, cfg, bootWait);
      return None;
    }

    /** Lines 934-963: the list */
    method ListSections(list: seq<Section>) returns (sel: Option<Section>)
      requires |b.rawId| == 8 && HasAutoboot(cfg) && Values() == Entry(None, None, false, bootWait)
      modifies this`logo, this`emupath, this`forceDisable, this`bootWait
      ensures sel == ListSelected(b, cfg, NotConfig(Choices(list)))
      ensures Values() == SelectedValues(b, num, old(bootWait), sel)
    {
      hide Choices, NotConfig, MatchAt, Matches, Read, Scanned;
      var bootEntryId := 1;
      ghost var l, wait := NotConfig(Choices(list)), bootWait;
      NoChoices(b.Id());
      for i := 0 to |list|
        invariant bootEntryId == |NotConfig(Choices(list[..i]))| + 1
        invariant ListPassed(b, NotConfig(Choices(list[..i])), cfg)
        invariant bootWait == wait && Values() == Entry(None, None, false, wait)
      {
        EntriesAround(list, i);
        var s := list[i];
        ghost var li, d := NotConfig(Choices(list[..i])), NotConfig(Choices(list[i + 1..]));
        if !s.kind.Choice? || s.name == "config" {
          assert NotConfig(Choices(list[..i + 1])) == li;
          continue;
        }
        if b.FromId() {
          var found := GetIniSecFromId(s);
          if found {
            ListFound(b, li, s, d, cfg);
            return Some(s);
          }
        } else if cfg["autoboot"] == bootEntryId {
          forceDisable := false;
          ReadEntry(s.kvs);
          ListFound(b, li, s, d, cfg);
          return Some(s);
        }
        ListGoesOn(b, li, s, cfg);
        bootEntryId := bootEntryId + 1;
      }
      assert list[..|list|] == list;
      return None;
    }

    /** Lines 830-968. The default configuration (bootloader/config.c, line 45) does not disable the emuMMC. */
    method AutoLaunch(main: Option<seq<Section>>, list: Option<seq<Section>>) returns (sel: Option<Section>)
      requires |b.rawId| == 8 && HasAutoboot(cfg) && !forceDisable
      modifies this
      ensures sel == Selected(b, num, old(cfg), main, list)
      ensures Values() == SelectedValues(b, num, WaitOf(b, num, old(cfg), main), sel)
      ensures cfg == if main.Some? then SettingsAfter(b, num, old(cfg), Choices(main.value)) else old(cfg)
    {
      hide Choices, SettingsAfter, MainSelected, ListSelected, NotConfig, SelectedValues;
      bootWait, logo, emupath := cfg["bootwait"], None, None;
      ghost var wait := WaitOf(b, num, cfg, main);
      ValuesOfNone(b, num, wait);
      if main.None? { return None; }
      sel := MainSections(main.value);
      if cfg["autoboot_list"] != 0 || (b.FromId() && sel.None?) {
        if b.FromId() && sel.Some? { return; }
        NoMainInListMode(b, cfg, Choices(main.value));
        if list.None? { return; }
        sel := ListSections(list.value);
      }
    }
  }

  /** The waiting time before an entry changes it */
  function WaitOf(b: BootCfg, num: Num, cfg: Settings, main: Option<seq<Section>>): nat
    requires |b.rawId| == 8 && HasAutoboot(cfg)
  {
    if main.None? then cfg["bootwait"] else WaitAfter(b, num, cfg["bootwait"], Choices(main.value))
  }

  lemma ValuesOfNone(b: BootCfg, num: Num, wait: nat)
    requires |b.rawId| == 8
    ensures SelectedValues(b, num, wait, None) == Entry(None, None, false, wait)
  {
  }

  lemma NoMainInListMode(b: BootCfg, after: Settings, c: seq<Section>)
    requires |b.rawId| == 8 && HasAutoboot(after)
    ensures after["autoboot_list"] != 0 && !b.FromId() ==> MainSelected(b, after, c) == None
  {
  }

  /** The list's loop is behind the entries li and has selected nothing. */
  predicate ListPassed(b: BootCfg, li: seq<Section>, cfg: Settings)
  {
    |b.rawId| == 8 && HasAutoboot(cfg) &&
    if b.FromId() then MatchAt(li, b.Id()) == |li| else !(1 <= cfg["autoboot"] <= |li|)
  }

  lemma ListFound(b: BootCfg, li: seq<Section>, x: Section, d: seq<Section>, cfg: Settings)
    requires ListPassed(b, li, cfg)
    requires if b.FromId() then Matches(b.Id(), x) else cfg["autoboot"] == |li| + 1
    ensures ListSelected(b, cfg, li + [x] + d) == Some(x)
  {
    hide MatchAt, Matches;
    var l := li + [x] + d;
    assert l[..|li| + 1] == li + [x];
    if b.FromId() { MatchInPrefix(l, b.Id(), li, x); }
  }

  lemma ListGoesOn(b: BootCfg, li: seq<Section>, x: Section, cfg: Settings)
    requires ListPassed(b, li, cfg)
    requires if b.FromId() then !Matches(b.Id(), x) else cfg["autoboot"] != |li| + 1
    ensures ListPassed(b, li + [x], cfg)
  {
    hide MatchAt, Matches;
    if b.FromId() { NoMatchYet(li, b.Id(), x); }
  }

  /** The main loop is behind the choices ci and has selected nothing. */
  predicate Passed(b: BootCfg, num: Num, cfg0: Settings, wait: nat, ci: seq<Section>, cfg: Settings, bootWait: nat)
  {
    var k := ConfigAt(ci);
    |b.rawId| == 8 && HasAutoboot(cfg) && HasAutoboot(cfg0) &&
    (if k < |ci| then
       cfg == Overridden(b, num, cfg0, ci[k].kvs) && bootWait == LastNum(ci[k].kvs, "bootwait", num, wait)
     else cfg == cfg0 && bootWait == wait) &&
    (b.FromId() ==> MatchAt(Rest(ci), b.Id()) == |Rest(ci)|) &&
    (!b.FromId() && k < |ci| ==> cfg["autoboot_list"] == 0 && !(k < cfg["autoboot"] < |ci|))
  }

  lemma NoChoices(id: string)
    ensures Choices([]) == [] && ConfigAt([]) == 0 && Rest([]) == [] && MatchAt([], id) == 0 && NotConfig([]) == []
  {
  }

  lemma ReadNothing(e: Entry, num: Num, withWait: bool)
    ensures Read(e, [], num, withWait) == e
  {
  }

  lemma KeepsWait(e: Entry, kvs: seq<Kv>, num: Num)
    ensures Read(e, kvs, num, false).bootWait == e.bootWait
  {
  }

  lemma ConfiguredNothing(cfg: Settings, wait: nat, num: Num)
    ensures Configured(cfg, [], num) == cfg && LastNum([], "bootwait", num, wait) == wait
  {
  }

  lemma MatchLater(a: seq<Section>, d: seq<Section>, id: string)
    requires MatchAt(a, id) == |a|
    ensures MatchAt(a + d, id) >= |a|
  {
    forall j | 0 <= j < |a| ensures !Matches(id, (a + d)[j]) { assert (a + d)[j] == a[j]; }
  }

  /** A `config` found among the first choices is the one of the whole file and is taken. */
  lemma ConfigTaken(b: BootCfg, ci: seq<Section>, d: seq<Section>)
    requires |b.rawId| == 8 && ConfigAt(ci) < |ci| && (b.FromId() ==> MatchAt(Rest(ci), b.Id()) == |Rest(ci)|)
    ensures SeesConfig(b, ci + d) && ConfigAt(ci + d) == ConfigAt(ci) && (ci + d)[ConfigAt(ci)] == ci[ConfigAt(ci)]
  {
    hide ConfigAt, MatchAt, Matches;
    RestAfterConfig(ci, d);
    if b.FromId() { MatchLater(Rest(ci), d, b.Id()); }
  }

  /** The main file was read with this outcome. */
  predicate Done(b: BootCfg, num: Num, cfg0: Settings, wait: nat, c: seq<Section>, cfg: Settings,
                 bootWait: nat, sel: Option<Section>)
    requires |b.rawId| == 8 && HasAutoboot(cfg0)
  {
    cfg == SettingsAfter(b, num, cfg0, c) && bootWait == WaitAfter(b, num, wait, c) && sel == MainSelected(b, cfg, c)
  }

  lemma OverriddenHas(b: BootCfg, num: Num, cfg: Settings, kvs: seq<Kv>)
    requires HasAutoboot(cfg)
    ensures HasAutoboot(Overridden(b, num, cfg, kvs))
  {
  }

  /** Line 889 or its opposite at the `config` section x */
  lemma PassedConfig(b: BootCfg, num: Num, cfg0: Settings, wait: nat, ci: seq<Section>, x: Section, d: seq<Section>)
    requires Passed(b, num, cfg0, wait, ci, cfg0, wait) && ConfigAt(ci) == |ci| && x.name == "config"
    ensures ConfigAt(ci + [x]) == |ci|
    ensures var cfg, w := Overridden(b, num, cfg0, x.kvs), LastNum(x.kvs, "bootwait", num, wait);
            HasAutoboot(cfg) &&
            if b.FromId() || cfg["autoboot_list"] == 0 then Passed(b, num, cfg0, wait, ci + [x], cfg, w)
            else Done(b, num, cfg0, wait, ci + [x] + d, cfg, w, None)
  {
    hide ConfigAt, MatchAt, Matches, Overridden, LastNum, Rest, HasAutoboot;
    OverriddenHas(b, num, cfg0, x.kvs);
    RestAtConfig(ci, x, []);
    assert ci + [x] + [] == ci + [x] && ci + [] == ci;
    if !b.FromId() { ConfigTaken(b, ci + [x], d); }
  }

  lemma FoundById(b: BootCfg, num: Num, cfg0: Settings, wait: nat, ci: seq<Section>, x: Section, d: seq<Section>,
                  cfg: Settings, bootWait: nat)
    requires Passed(b, num, cfg0, wait, ci, cfg, bootWait) && b.FromId() && Matches(b.Id(), x)
    requires ConfigAt(ci) < |ci| || x.name != "config"
    ensures Done(b, num, cfg0, wait, ci + [x] + d, cfg, bootWait, Some(x))
  {
    hide ConfigAt, MatchAt, Matches, Overridden, LastNum, Rest, HasAutoboot;
    AppendAssoc(ci, [x], d);
    var c := ci + [x] + d;
    if ConfigAt(ci) < |ci| {
      RestAfterConfig(ci, [x] + d);
      ConfigTaken(b, ci, [x] + d);
      OneMore(Rest(ci), x, d);
    } else {
      RestBeforeConfig(ci, x, d);
    }
    MatchInPrefix(Rest(c), b.Id(), Rest(ci), x);
  }

  lemma AppendAssoc(a: seq<Section>, b: seq<Section>, c: seq<Section>)
    ensures a + b + c == a + (b + c)
  {
  }

  lemma EntryThere(a: seq<Section>, x: Section, d: seq<Section>)
    ensures |a| < |a + [x] + d| && (a + [x] + d)[|a|] == x
  {
  }

  lemma OneMore(a: seq<Section>, x: Section, d: seq<Section>)
    ensures |a| < |a + ([x] + d)| && (a + ([x] + d))[..|a| + 1] == a + [x]
  {
  }

  lemma FoundByNumber(b: BootCfg, num: Num, cfg0: Settings, wait: nat, ci: seq<Section>, x: Section, d: seq<Section>,
                      cfg: Settings, bootWait: nat)
    requires Passed(b, num, cfg0, wait, ci, cfg, bootWait) && !b.FromId()
    requires ConfigAt(ci) < |ci| && cfg["autoboot"] == |ci|
    ensures Done(b, num, cfg0, wait, ci + [x] + d, cfg, bootWait, Some(x))
  {
    hide ConfigAt, MatchAt, Matches, Overridden, LastNum, Rest, HasAutoboot;
    AppendAssoc(ci, [x], d);
    ConfigTaken(b, ci, [x] + d);
    EntryThere(ci, x, d);
  }

  lemma PassedEntry(b: BootCfg, num: Num, cfg0: Settings, wait: nat, ci: seq<Section>, x: Section,
                    cfg: Settings, bootWait: nat)
    requires Passed(b, num, cfg0, wait, ci, cfg, bootWait) && (ConfigAt(ci) < |ci| || x.name != "config")
    requires if b.FromId() then !Matches(b.Id(), x) else ConfigAt(ci) < |ci| ==> cfg["autoboot"] != |ci|
    ensures Passed(b, num, cfg0, wait, ci + [x], cfg, bootWait)
    ensures ConfigAt(ci + [x]) < |ci + [x]| <==> ConfigAt(ci) < |ci|
  {
    hide ConfigAt, MatchAt, Matches, Overridden, LastNum, Rest, HasAutoboot;
    if ConfigAt(ci) < |ci| {
      RestAfterConfig(ci, [x]);
    } else {
      RestBeforeConfig(ci, x, []);
      RestWhole(ci + [x]);
    }
    if b.FromId() { NoMatchYet(Rest(ci), b.Id(), x); }
  }

  lemma RestWhole(c: seq<Section>)
    requires ConfigAt(c) == |c|
    ensures Rest(c) == c
  {
  }

  lemma PassedAll(b: BootCfg, num: Num, cfg0: Settings, wait: nat, c: seq<Section>, cfg: Settings, bootWait: nat)
    requires Passed(b, num, cfg0, wait, c, cfg, bootWait)
    ensures Done(b, num, cfg0, wait, c, cfg, bootWait, None)
  {
    hide ConfigAt, MatchAt, Matches, Overridden, LastNum, Rest, HasAutoboot;
    assert c + [] == c;
    if ConfigAt(c) < |c| { ConfigTaken(b, c, []); }
  }

  // ----- What the selection means -----

  /** The settings once the `config` section was read: the boot configuration gives the number and the list flag
      when it is set to boot by itself, every other setting is that of its last key, and nothing else changes. */
  lemma SettingsOfConfig(b: BootCfg, num: Num, cfg: Settings, c: seq<Section>)
    requires |b.rawId| == 8 && HasAutoboot(cfg)
    ensures SettingsAfter(b, num, cfg, c).Keys == cfg.Keys
    ensures SeesConfig(b, c) ==>
              var after, kvs := SettingsAfter(b, num, cfg, c), c[ConfigAt(c)].kvs;
              after["autoboot"] ==
                (if b.autobootEn then b.autoboot else LastNum(kvs, "autoboot", num, cfg["autoboot"])) &&
              after["autoboot_list"] ==
                (if b.autobootEn then b.autobootList else LastNum(kvs, "autoboot_list", num, cfg["autoboot_list"])) &&
              (forall k <- ["backlight", "noticker", "autohosoff", "autonogc", "updater2p", "bootprotect", "autokeys",
                            "autosecmon"] :: after[k] == LastNum(kvs, k, num, cfg[k])) &&
              forall k <- cfg.Keys - CONFIG_KEYS :: after[k] == cfg[k]
    ensures !SeesConfig(b, c) ==> SettingsAfter(b, num, cfg, c) == cfg
  {
    hide Last, ConfigAt, SeesConfig;
  }

  /** The n-th choice stands somewhere in the file with n choices before it. */
  lemma {:induction false} ChoiceStands(s: seq<Section>, n: nat) returns (i: nat)
    requires n < |Choices(s)|
    ensures i < |s| && s[i].kind.Choice? && |Choices(s[..i])| == n && s[i] == Choices(s)[n]
    decreases s
  {
    hide Choices;
    NoChoices("");
    var m := |s| - 1;
    ChoicesStep(s, m);
    assert s[..m + 1] == s;
    if n < |Choices(s[..m])| {
      i := ChoiceStands(s[..m], n);
      assert s[..m][..i] == s[..i];
    } else {
      i := m;
    }
  }

  /** Wherever `config` stands, booting by number from the main file selects a section just when it is a choice
      with that many choices before it, `config` among them. */
  lemma EntryAtPosition(b: BootCfg, num: Num, cfg: Settings, main: seq<Section>, list: Option<seq<Section>>, s: Section)
    requires |b.rawId| == 8 && HasAutoboot(cfg) && !b.FromId()
    requires SettingsAfter(b, num, cfg, Choices(main))["autoboot_list"] == 0
    ensures Selected(b, num, cfg, Some(main), list) == Some(s) <==>
              StandsSomewhere(main, s, SettingsAfter(b, num, cfg, Choices(main))["autoboot"])
  {
    hide Choices, SettingsAfter, NotConfig, ListSelected, MainSelected, StandsSomewhere, HasAutoboot;
    MainAtPosition(b, SettingsAfter(b, num, cfg, Choices(main)), main, s);
  }

  ghost predicate StandsSomewhere(main: seq<Section>, s: Section, n: nat)
  {
    exists i :: 0 <= i < |main| && StandsAt(main, i, s, n)
  }

  lemma MainAtPosition(b: BootCfg, after: Settings, main: seq<Section>, s: Section)
    requires |b.rawId| == 8 && HasAutoboot(after) && !b.FromId() && after["autoboot_list"] == 0
    ensures MainSelected(b, after, Choices(main)) == Some(s) <==> StandsSomewhere(main, s, after["autoboot"])
  {
    hide Choices, ConfigAt, StandsAt;
    var n := after["autoboot"];
    if MainSelected(b, after, Choices(main)) == Some(s) {
      var i := ChoiceStands(main, n);
      Stands(main, i, s, n);
    }
    if StandsSomewhere(main, s, n) {
      var i :| 0 <= i < |main| && StandsAt(main, i, s, n);
      Stands(main, i, s, n);
    }
  }

  /** Section i is a choice with n choices before it, one of them named `config`. */
  predicate StandsAt(main: seq<Section>, i: nat, s: Section, n: nat)
    requires i < |main|
  {
    main[i] == s && s.kind.Choice? && |Choices(main[..i])| == n &&
    exists j :: 0 <= j < n && Choices(main[..i])[j].name == "config"
  }

  lemma Stands(main: seq<Section>, i: nat, s: Section, n: nat)
    requires i < |main|
    ensures StandsAt(main, i, s, n) <==>
              main[i] == s && s.kind.Choice? && |Choices(main[..i])| == n > ConfigAt(Choices(main))
    ensures StandsAt(main, i, s, n) ==> n < |Choices(main)| && Choices(main)[n] == s
  {
    hide Choices;
    ConfigBefore(main, i);
    ChoicesAround(main, i);
  }

  lemma ConfigBefore(main: seq<Section>, i: nat)
    requires i < |main|
    ensures ConfigAt(Choices(main)) < |Choices(main[..i])| <==>
              exists j :: 0 <= j < |Choices(main[..i])| && Choices(main[..i])[j].name == "config"
  {
    hide Choices;
    ChoicesAround(main, i);
    var c, ci := Choices(main), Choices(main[..i]);
    forall j | 0 <= j < |ci| ensures c[j] == ci[j] {}
    if ConfigAt(c) < |ci| { assert ci[ConfigAt(c)].name == "config"; }
    if j :| 0 <= j < |ci| && ci[j].name == "config" { assert c[j].name == "config"; }
  }

  /** With `config` first, booting by number n starts the n-th later choice, or nothing. */
  lemma NumberedEntry(b: BootCfg, num: Num, cfg: Settings, main: seq<Section>, list: Option<seq<Section>>)
    requires |b.rawId| == 8 && HasAutoboot(cfg) && !b.FromId()
    requires Choices(main) != [] && Choices(main)[0].name == "config"
    ensures var kvs, later := Choices(main)[0].kvs, Choices(main)[1..];
            var n := if b.autobootEn then b.autoboot else LastNum(kvs, "autoboot", num, cfg["autoboot"]);
            var l := if b.autobootEn then b.autobootList else LastNum(kvs, "autoboot_list", num, cfg["autoboot_list"]);
            Selected(b, num, cfg, Some(main), list) ==
              if l == 0 then At(later, n as int - 1)
              else if list.Some? then At(NotConfig(Choices(list.value)), n as int - 1)
              else None
  {
    hide Choices, SettingsAfter, NotConfig, LastNum, MainSelected, At, HasAutoboot, ConfigAt, SeesConfig;
    var c := Choices(main);
    ConfigAtIs(c, 0);
    SeesConfigIs(b, c);
    SettingsOfConfig(b, num, cfg, c);
    ConfigFirst(b, SettingsAfter(b, num, cfg, c), c);
  }

  lemma ConfigFirst(b: BootCfg, after: Settings, c: seq<Section>)
    requires |b.rawId| == 8 && HasAutoboot(after) && !b.FromId() && c != [] && ConfigAt(c) == 0
    ensures MainSelected(b, after, c) ==
              if after["autoboot_list"] == 0 then At(c[1..], after["autoboot"] as int - 1) else None
  {
    hide ConfigAt;
    var n := after["autoboot"];
    if 0 < n < |c| { assert c[1..][n - 1] == c[n]; }
  }

  lemma MatchOverTwo(a: seq<Section>, d: seq<Section>, id: string)
    ensures MatchAt(a + d, id) == if MatchAt(a, id) < |a| then MatchAt(a, id) else |a| + MatchAt(d, id)
  {
    hide MatchAt, Matches;
    var k := if MatchAt(a, id) < |a| then MatchAt(a, id) else |a| + MatchAt(d, id);
    forall j | 0 <= j < k ensures !Matches(id, (a + d)[j]) {
      assert (a + d)[j] == if j < |a| then a[j] else d[j - |a|];
    }
    MatchAtIs(a + d, id, k);
  }

  /** Booting by identifier starts the first section with it, looking through the main file and then the list. */
  lemma EntryById(b: BootCfg, num: Num, cfg: Settings, main: seq<Section>, list: seq<Section>)
    requires |b.rawId| == 8 && HasAutoboot(cfg) && b.FromId()
    ensures var all := Rest(Choices(main)) + NotConfig(Choices(list));
            Selected(b, num, cfg, Some(main), Some(list)) == At(all, MatchAt(all, b.Id()))
  {
    hide Choices, SettingsAfter, NotConfig, MatchAt, Rest;
    MatchOverTwo(Rest(Choices(main)), NotConfig(Choices(list)), b.Id());
  }

  /** The logo, the emuMMC path and its disabling come from the selected section's own keys and from nothing
      else, when the section has one `id` key at most. */
  lemma NothingLeaks(b: BootCfg, num: Num, wait: nat, s: Section)
    requires |b.rawId| == 8 && (b.FromId() ==> Matches(b.Id(), s))
    requires forall i, j :: 0 <= i < j < |s.kvs| ==> !(s.kvs[i].key == "id" == s.kvs[j].key)
    ensures var v := SelectedValues(b, num, wait, Some(s));
            v.logo == Last(s.kvs, "logopath") && v.emupath == Last(s.kvs, "emupath") &&
            v.forceDisable == (LastNum(s.kvs, "emummc_force_disable", num, 0) != 0) &&
            v.bootWait == if b.FromId() then wait else LastNum(s.kvs, "bootwait", num, wait)
  {
    hide Last, Matches, Scanned;
    if b.FromId() { OneIdIsWhole(s, b.Id()); }
  }

  // ----- Automatic key dumping -----

  /** `_autokeys_enabled` (lines 726-746) */
  method AutokeysEnabled(num: Num, main: Option<seq<Section>>) returns (enabled: bool)
    ensures enabled == (AutokeysSetting(num, main) != 0)
  {
    hide Last, Choices, ConfigAt;
    enabled := true;
    if main.None? { return; }
    NoChoices("");
    for i := 0 to |main.value|
      invariant enabled && ConfigAt(Choices(main.value[..i])) == |Choices(main.value[..i])|
    {
      ChoicesAround(main.value, i);
      var s := main.value[i];
      ghost var ci, d := Choices(main.value[..i]), Choices(main.value[i + 1..]);
      if !s.kind.Choice? {
        assert Choices(main.value[..i + 1]) == ci;
        continue;
      }
      if s.name != "config" {
        RestBeforeConfig(ci, s, []);
        continue;
      }
      RestAtConfig(ci, s, d);
      var setting := ReadAutokeys(num, s.kvs);
      return setting != 0;
    }
    assert main.value[..|main.value|] == main.value;
  }

  method ReadAutokeys(num: Num, kvs: seq<Kv>) returns (enabled: nat)
    ensures enabled == LastNum(kvs, "autokeys", num, 1)
  {
    enabled := 1;
    for i := 0 to |kvs|
      invariant enabled == LastNum(kvs[..i], "autokeys", num, 1)
    {
      LastStep(kvs, i, "autokeys");
      if kvs[i].key == "autokeys" { enabled := num(kvs[i].val); }
    }
    assert kvs[..|kvs|] == kvs;
  }

  function AutokeysSetting(num: Num, main: Option<seq<Section>>): nat
  {
    if main.None? || ConfigAt(Choices(main.value)) == |Choices(main.value)| then 1
    else LastNum(Choices(main.value)[ConfigAt(Choices(main.value))].kvs, "autokeys", num, 1)
  }

  /** Both readers of the key agree, if the selection gets to the `config` section. */
  lemma AutokeysReadersAgree(b: BootCfg, num: Num, cfg: Settings, main: seq<Section>)
    requires |b.rawId| == 8 && HasAutoboot(cfg) && cfg["autokeys"] == 1
    ensures ConfigAt(Choices(main)) == |Choices(main)| || SeesConfig(b, Choices(main)) ==>
              SettingsAfter(b, num, cfg, Choices(main))["autokeys"] == AutokeysSetting(num, Some(main))
  {
    hide Last, Choices, ConfigAt, MatchAt;
  }
}
