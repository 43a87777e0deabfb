/** Automatic key dumping across reboots (bootloader/main.c, lines 726-805).

    A boot may start Lockpick, which does not return. An attempt marker on the card keeps later boots from
    starting it again. Every card operation works, fails or is cut short by a power loss, and one that
    should change a file may leave anything there unless it works. */
module Autokeys {

  import opened Options

  datatype Path = Lockpick | ProdKeys | DevKeys | Version | Attempt | Request

  type Files = map<Path, string>

  datatype Fate =
    | Works
    | Fails(left: Option<string>)
    | Cut(left: Option<string>)

  datatype Point =
    | Config
    | Stat(path: Path)
    | Open(path: Path)
    | Read(path: Path)
    | Create(path: Path)
    | Write(path: Path)
    | Close(path: Path)
    | Unlink(path: Path)
    | Launch

  /** What happens to the card operations of one boot. */
  type Fates = Point -> Fate

  datatype Event =
    | Started(revision: string)
    | SawCompletion(revision: string)
    | Unreadable(revision: string)
    | Rewrote(revision: string)
    | Altered

  const MAX_PAYLOAD := 0x3_0000

  // ----- What one boot does -----

  function Put(f: Files, path: Path, content: Option<string>): Files
  {
    if content.Some? then f[path := content.value] else f - {path}
  }

  function Content(f: Files, path: Path): Option<string> { if path in f then Some(f[path]) else None }

  /** A file after an operation that leaves `good` there when it works */
  function Left(f: Files, fate: Fate, path: Path, good: Option<string>): Files
  {
    Put(f, path, if fate.Works? then good else fate.left)
  }

  predicate SeesFile(f: Files, e: Fates, path: Path) { e(Stat(path)).Works? && path in f && f[path] != "" }

  /** Line 770 */
  predicate SeesKeys(f: Files, e: Fates) { SeesFile(f, e, ProdKeys) || SeesFile(f, e, DevKeys) }

  /** The power goes while the keys are looked for. */
  predicate KeysCut(f: Files, e: Fates)
  {
    e(Stat(ProdKeys)).Cut? || (!SeesFile(f, e, ProdKeys) && e(Stat(DevKeys)).Cut?)
  }

  predicate MarkerCut(f: Files, e: Fates, path: Path)
  {
    e(Open(path)).Cut? || (e(Open(path)).Works? && path in f && e(Read(path)).Cut?)
  }

  /** The marker can be read and holds the revision, all of it and nothing else. */
  predicate SeesMarker(f: Files, e: Fates, path: Path, v: string)
  {
    e(Open(path)).Works? && e(Read(path)).Works? && Content(f, path) == Some(v)
  }

  datatype After = After(files: Files, events: seq<Event>)

  /** Lines 764-805 */
  function Boot(f: Files, v: string, enabled: bool, e: Fates): After
  {
    if e(Config).Cut? || !enabled || !e(Stat(Lockpick)).Works? || Lockpick !in f || KeysCut(f, e) then After(f, [])
    else if SeesKeys(f, e) && MarkerCut(f, e, Version) then After(f, [])
    else if SeesKeys(f, e) && SeesMarker(f, e, Version, v) then After(Cleared(f, e), [SawCompletion(v)])
    else if MarkerCut(f, e, Attempt) || SeesMarker(f, e, Attempt, v) then After(f, [])
    else
      var a := Try(Left(f, e(Create(Attempt)), Attempt, Some("")), v, e);
      a.(events := (if Content(f, Attempt) == Some(v) then [Unreadable(v)] else []) + [Rewrote(v)] + a.events)
  }

  /** Lines 775-776 */
  function Cleared(f: Files, e: Fates): Files
  {
    var g := Left(f, e(Unlink(Attempt)), Attempt, None);
    if e(Unlink(Attempt)).Cut? then g else Left(g, e(Unlink(Request)), Request, None)
  }

  /** Lines 788-804, once the attempt marker was created or not */
  function Try(f: Files, v: string, e: Fates): After
  {
    if !e(Create(Attempt)).Works? then After(f, [])
    else
      var f1 := Left(f, e(Write(Attempt)), Attempt, Some(v));
      if e(Write(Attempt)).Cut? then After(f1, [])
      else
        var f2 := Left(f1, e(Close(Attempt)), Attempt, Content(f1, Attempt));
        if !e(Write(Attempt)).Works? || !e(Close(Attempt)).Works? then After(f2, []) else Hand(f2, v, e)
  }

  /** Lines 794-804 */
  function Hand(f: Files, v: string, e: Fates): After
  {
    var f1 := Left(f, e(Create(Request)), Request, Some(""));
    if !e(Create(Request)).Works? then After(f1, [])
    else
      var f2 := Left(f1, e(Close(Request)), Request, Content(f1, Request));
      if !e(Close(Request)).Works? then After(f2, [])
      else if e(Launch).Works? && Lockpick in f2 && |f2[Lockpick]| <= MAX_PAYLOAD then After(f2, [Started(v)])
      else if e(Launch).Cut? then After(f2, [])
      else After(Left(f2, e(Unlink(Request)), Request, None), [])
  }

  // ----- Laws of one boot -----

  /** The operations that write the markers and launch */
  const START_POINTS: seq<Point> :=
    [Create(Attempt), Write(Attempt), Close(Attempt), Create(Request), Close(Request), Launch]

  lemma AllStartPoints(e: Fates)
    ensures (forall p <- START_POINTS :: e(p).Works?) <==>
              e(Create(Attempt)).Works? && e(Write(Attempt)).Works? && e(Close(Attempt)).Works? &&
              e(Create(Request)).Works? && e(Close(Request)).Works? && e(Launch).Works?
  {
    assert START_POINTS[0] == Create(Attempt) && START_POINTS[1] == Write(Attempt);
    assert START_POINTS[2] == Close(Attempt) && START_POINTS[3] == Create(Request);
    assert START_POINTS[4] == Close(Request) && START_POINTS[5] == Launch;
  }

  /** What a start needs beside the attempt marker not being seen */
  predicate MayStart(f: Files, v: string, enabled: bool, e: Fates)
  {
    enabled && !e(Config).Cut? && e(Stat(Lockpick)).Works? && !KeysCut(f, e) &&
    Lockpick in f && |f[Lockpick]| <= MAX_PAYLOAD &&
    (SeesKeys(f, e) ==> !MarkerCut(f, e, Version) && !SeesMarker(f, e, Version, v)) &&
    forall p <- START_POINTS :: e(p).Works?
  }

  /** A boot starts Lockpick just when it may, has not seen its own revision completed or attempted, and
      could write both markers. */
  lemma StartCondition(f: Files, v: string, enabled: bool, e: Fates)
    ensures Started(v) in Boot(f, v, enabled, e).events <==>
              MayStart(f, v, enabled, e) && !MarkerCut(f, e, Attempt) && !SeesMarker(f, e, Attempt, v)
  {
    AllStartPoints(e);
  }

  /** When Lockpick starts, the exact attempt marker and the request are on the card, written and closed by
      the same boot, and the start is the last thing that happens. */
  lemma StartedMarked(f: Files, v: string, enabled: bool, e: Fates)
    ensures var a := Boot(f, v, enabled, e);
            forall i, r :: 0 <= i < |a.events| && a.events[i] == Started(r) ==>
              r == v && i == |a.events| - 1 && Content(a.files, Attempt) == Some(v) && Request in a.files &&
              e(Write(Attempt)).Works? && e(Close(Attempt)).Works?
  {
  }

  /** Completion is seen just with non-empty keys and the exact completion marker. Each marker that the boot
      can remove is then gone, so that lost keys are dumped anew, and no other file changes. */
  lemma CompletionClears(f: Files, v: string, enabled: bool, e: Fates)
    ensures var a := Boot(f, v, enabled, e);
            (SawCompletion(v) in a.events <==>
               enabled && !e(Config).Cut? && e(Stat(Lockpick)).Works? && Lockpick in f && !KeysCut(f, e) &&
               SeesKeys(f, e) && SeesMarker(f, e, Version, v)) &&
            (SawCompletion(v) in a.events ==>
               a.files - {Attempt, Request} == f - {Attempt, Request} &&
               (e(Unlink(Attempt)).Works? ==> Attempt !in a.files) &&
               (e(Unlink(Request)).Works? && !e(Unlink(Attempt)).Cut? ==> Request !in a.files))
  {
  }

  /** When no operation goes wrong, Lockpick starts just when it is enabled, there and not too large, the keys are
      missing, empty or of another revision, and this revision was not attempted. */
  lemma StartWhenAllWorks(f: Files, v: string, enabled: bool)
    ensures Started(v) in Boot(f, v, enabled, AllWork()).events <==>
              enabled && Lockpick in f && |f[Lockpick]| <= MAX_PAYLOAD &&
              !(((ProdKeys in f && f[ProdKeys] != "") || (DevKeys in f && f[DevKeys] != "")) &&
                Version in f && f[Version] == v) &&
              !(Attempt in f && f[Attempt] == v)
  {
    hide Boot;
    StartCondition(f, v, enabled, AllWork());
  }

  /** A boot changes no file but the attempt marker and the request, and an attempt marker that it could write
      and close is the exact one, whether or not Lockpick was started. */
  lemma OnlyMarkersChange(f: Files, v: string, enabled: bool, e: Fates)
    ensures var a := Boot(f, v, enabled, e);
            a.files - {Attempt, Request} == f - {Attempt, Request} &&
            (Rewrote(v) in a.events && AttemptWorks(e) ==> Content(a.files, Attempt) == Some(v))
  {
  }

  predicate AttemptWorks(e: Fates) { e(Create(Attempt)).Works? && e(Write(Attempt)).Works? && e(Close(Attempt)).Works? }

  /** A boot that created the request and did not start Lockpick removes it again, if the removal works and the
      power stays, unless closing the request failed: then the boot ends at once, and whatever that left stays. */
  lemma RequestRemoved(f: Files, v: string, enabled: bool, e: Fates)
    requires AttemptWorks(e) && e(Create(Request)).Works? && e(Unlink(Request)).Works?
    requires !e(Close(Request)).Cut? && !e(Launch).Cut?
    ensures var a := Boot(f, v, enabled, e);
            Rewrote(v) in a.events && Started(v) !in a.events ==>
              Content(a.files, Request) == if e(Close(Request)).Fails? then e(Close(Request)).left else None
  {
    hide KeysCut, SeesKeys, SeesMarker, MarkerCut;
  }

  /** So the request goes after a failed launch if and only if closing it worked or left nothing. */
  lemma RequestGoneIff(f: Files, v: string, enabled: bool, e: Fates)
    requires AttemptWorks(e) && e(Create(Request)).Works? && e(Unlink(Request)).Works?
    requires !e(Close(Request)).Cut? && !e(Launch).Cut?
    requires Rewrote(v) in Boot(f, v, enabled, e).events && Started(v) !in Boot(f, v, enabled, e).events
    ensures Request !in Boot(f, v, enabled, e).files <==> e(Close(Request)).Works? || e(Close(Request)).left == None
  {
    hide Boot, AttemptWorks;
    RequestRemoved(f, v, enabled, e);
  }

  /** What ends the effect of an attempt marker of revision v: someone outside changed the marker, a boot saw
      the keys and a matching completion marker, the marker was there but could not be read, or another
      revision wrote its own. */
  predicate Breaks(ev: Event, v: string)
  {
    ev.Altered? || ev.SawCompletion? || ev == Unreadable(v) || (ev.Rewrote? && ev.revision != v)
  }

  ghost predicate HasBreak(h: seq<Event>, v: string) { exists k :: 0 <= k < |h| && Breaks(h[k], v) }

  /** No start of v comes before a break. */
  ghost predicate Guarded(h: seq<Event>, v: string)
  {
    forall j :: 0 <= j < |h| && h[j] == Started(v) ==> HasBreak(h[..j], v)
  }

  /** Between any two starts of v there is a break. */
  ghost predicate Spaced(h: seq<Event>, v: string)
  {
    forall i, j :: 0 <= i < j < |h| && h[i] == Started(v) == h[j] ==> HasBreak(h[i + 1..j], v)
  }

  /** A boot that finds the exact attempt marker keeps it and does not start Lockpick, unless its events
      begin with a break. */
  lemma MarkedBoot(f: Files, v: string, w: string, enabled: bool, e: Fates)
    requires Content(f, Attempt) == Some(v)
    ensures var a := Boot(f, w, enabled, e);
            (a.events == [] && a.files == f) || (a.events != [] && Breaks(a.events[0], v))
  {
  }

  // ----- Runs -----

  /** A run: boots of any revision, with what Lockpick leaves if it was started, and changes made outside.
      Lockpick itself (res/lockpick-autokeys.patch) may change everything but the attempt marker. */
  datatype Step =
    | Boots(revision: string, enabled: bool, fates: Fates, payload: Files)
    | Outside(files: Files)

  function StepFrom(f: Files, s: Step): After
  {
    match s
    case Boots(v, enabled, e, payload) =>
      var a := Boot(f, v, enabled, e);
      if Started(v) in a.events then a.(files := Put(payload, Attempt, Content(a.files, Attempt))) else a
    case Outside(g) =>
      After(g, if Content(g, Attempt) == Content(f, Attempt) then [] else [Altered])
  }

  function Run(f: Files, steps: seq<Step>): After
    decreases steps
  {
    if steps == [] then After(f, [])
    else
      var a := StepFrom(f, steps[0]);
      var b := Run(a.files, steps[1..]);
      b.(events := a.events + b.events)
  }

  lemma GuardedJoin(a: seq<Event>, b: seq<Event>, v: string)
    requires Guarded(a, v) && (HasBreak(a, v) || Guarded(b, v))
    ensures Guarded(a + b, v)
  {
    var h := a + b;
    forall j | 0 <= j < |h| && h[j] == Started(v) ensures HasBreak(h[..j], v) {
      if j < |a| {
        assert h[..j] == a[..j];
      } else if HasBreak(a, v) {
        var k :| 0 <= k < |a| && Breaks(a[k], v);
        assert h[..j][k] == a[k];
      } else {
        var k :| 0 <= k < |b[..j - |a|]| && Breaks(b[..j - |a|][k], v);
        assert h[..j][|a| + k] == b[..j - |a|][k];
      }
    }
  }

  lemma SpacedJoin(a: seq<Event>, b: seq<Event>, v: string)
    requires forall i :: 0 <= i < |a| && a[i] == Started(v) ==> i == |a| - 1 && Guarded(b, v)
    requires Spaced(b, v)
    ensures Spaced(a + b, v)
  {
    var h := a + b;
    forall i, j | 0 <= i < j < |h| && h[i] == Started(v) == h[j] ensures HasBreak(h[i + 1..j], v) {
      if i < |a| {
        assert i == |a| - 1;
        assert h[i + 1..j] == b[..j - |a|] && b[j - |a|] == Started(v);
      } else {
        assert h[i + 1..j] == b[i - |a| + 1..j - |a|];
      }
    }
  }

  /** With the exact marker on the card, no start comes before a break. */
  lemma {:induction false} AfterMark(f: Files, steps: seq<Step>, v: string)
    requires Content(f, Attempt) == Some(v)
    ensures Guarded(Run(f, steps).events, v)
    decreases steps
  {
    hide Boot;
    if steps != [] {
      var a := StepFrom(f, steps[0]);
      MarkedStep(f, steps[0], v);
      if a.events == [] {
        AfterMark(a.files, steps[1..], v);
        assert Guarded(a.events, v);
      } else {
        FirstBreaks(a.events, v);
      }
      GuardedJoin(a.events, Run(a.files, steps[1..]).events, v);
    }
  }

  lemma MarkedStep(f: Files, s: Step, v: string)
    requires Content(f, Attempt) == Some(v)
    ensures var a := StepFrom(f, s);
            (a.events == [] && Content(a.files, Attempt) == Some(v)) || (a.events != [] && Breaks(a.events[0], v))
  {
    hide Boot;
    if s.Boots? { MarkedBoot(f, v, s.revision, s.enabled, s.fates); }
  }

  lemma FirstBreaks(h: seq<Event>, v: string)
    requires h != [] && Breaks(h[0], v)
    ensures HasBreak(h, v) && Guarded(h, v)
  {
    forall j | 0 <= j < |h| && h[j] == Started(v) ensures HasBreak(h[..j], v) {
      assert h[..j][0] == h[0];
    }
  }

  /** Over every run, between two starts of the same revision someone outside changed the attempt marker, a
      boot saw non-empty keys and a matching completion marker, another revision wrote its own marker, or
      the marker was there and could not be read. */
  lemma {:induction false} StartsAreSpaced(f: Files, steps: seq<Step>, v: string)
    ensures Spaced(Run(f, steps).events, v)
    decreases steps
  {
    hide Boot;
    if steps != [] {
      var s, a := steps[0], StepFrom(f, steps[0]);
      StartsAreSpaced(a.files, steps[1..], v);
      forall i | 0 <= i < |a.events| && a.events[i] == Started(v)
        ensures i == |a.events| - 1 && Guarded(Run(a.files, steps[1..]).events, v)
      {
        StartedMarked(f, s.revision, s.enabled, s.fates);
        AfterMark(a.files, steps[1..], v);
      }
      SpacedJoin(a.events, Run(a.files, steps[1..]).events, v);
    }
  }

  lemma BreakInside(h: seq<Event>, i: nat, j: nat, v: string)
    requires i <= j <= |h| && HasBreak(h[i..j], v)
    ensures HasBreak(h, v)
  {
    var k :| 0 <= k < |h[i..j]| && Breaks(h[i..j][k], v);
    assert h[i + k] == h[i..j][k];
  }

  /** Without such a break a revision starts Lockpick once at most. */
  lemma OneStart(f: Files, steps: seq<Step>, v: string, i: nat, j: nat)
    requires var h := Run(f, steps).events; i < |h| && j < |h| && h[i] == Started(v) == h[j]
    ensures !HasBreak(Run(f, steps).events, v) ==> i == j
  {
    var h := Run(f, steps).events;
    StartsAreSpaced(f, steps, v);
    if i < j { BreakInside(h, i + 1, j, v); }
    if j < i { BreakInside(h, j + 1, i, v); }
  }

  // ----- The unreadable marker -----

  /** A boot that finds its own exact attempt marker starts Lockpick again just when it may start and the
      marker cannot be opened or read. */
  lemma RepeatsJustWhenUnreadable(f: Files, v: string, enabled: bool, e: Fates)
    requires Content(f, Attempt) == Some(v)
    ensures Started(v) in Boot(f, v, enabled, e).events <==>
              MayStart(f, v, enabled, e) &&
              (e(Open(Attempt)).Fails? || (e(Open(Attempt)).Works? && e(Read(Attempt)).Fails?))
  {
    hide Boot, KeysCut, SeesKeys;
    StartCondition(f, v, enabled, e);
  }

  function AllWork(): Fates { _ => Works }

  function MarkerReadFails(): Fates { p => if p == Read(Attempt) then Fails(None) else Works }

  /** A card without keys on which nothing goes wrong */
  lemma FirstBoot(f: Files, v: string)
    requires Lockpick in f && |f[Lockpick]| <= MAX_PAYLOAD && ProdKeys !in f && DevKeys !in f && Attempt !in f
    ensures var a := Boot(f, v, true, AllWork());
            a.events == [Rewrote(v), Started(v)] && Content(a.files, Attempt) == Some(v)
  {
  }

  /** The same with the exact attempt marker there, but unreadable */
  lemma SecondBoot(f: Files, v: string)
    requires Lockpick in f && |f[Lockpick]| <= MAX_PAYLOAD && ProdKeys !in f && DevKeys !in f
    requires Content(f, Attempt) == Some(v)
    ensures Boot(f, v, true, MarkerReadFails()).events == [Unreadable(v), Rewrote(v), Started(v)]
  {
  }

  /** Two boots that both start Lockpick, though nobody touched the markers and nothing was completed. */
  lemma UnreadableMarkerRepeats(f: Files, v: string)
    requires Lockpick in f && |f[Lockpick]| <= MAX_PAYLOAD && ProdKeys !in f && DevKeys !in f && Attempt !in f
    ensures Run(f, [Boots(v, true, AllWork(), f), Boots(v, true, MarkerReadFails(), f)]).events
         == [Rewrote(v), Started(v), Unreadable(v), Rewrote(v), Started(v)]
  {
    hide Boot, AllWork, MarkerReadFails;
    var s1, s2 := Boots(v, true, AllWork(), f), Boots(v, true, MarkerReadFails(), f);
    FirstBoot(f, v);
    var a := StepFrom(f, s1);
    SecondBoot(a.files, v);
    var b := StepFrom(a.files, s2);
    assert [s1, s2][1..] == [s2] && [s2][1..] == [];
    assert Run(b.files, []).events == [];
    assert Run(a.files, [s2]).events == b.events + [];
  }

  // ----- The code -----

  /** The result of a card operation, unless the power went */
  datatype Outcome<T> = Ran(value: T) | PowerCut
  {
    predicate IsFailure() { PowerCut? }

    function PropagateFailure<U>(): Outcome<U>
      requires PowerCut?
    {
      PowerCut
    }

    function Extract(): T
      requires Ran?
    {
      value
    }
  }

  class Card {
    var files: Files
    var events: seq<Event>
    const fates: Fates

    constructor (f: Files, e: Fates)
      ensures files == f && fates == e && events == []
    {
      files, fates, events := f, e, [];
    }

    /** `f_stat`: whether it found the file, and its size */
    method StatFile(path: Path) returns (r: Outcome<Option<nat>>)
      ensures r.PowerCut? <==> fates(Stat(path)).Cut?
      ensures r.Ran? ==> (r.value.Some? <==> fates(Stat(path)).Works? && path in files)
      ensures r.Ran? && r.value.Some? ==> path in files && r.value.value == |files[path]|
    {
      match fates(Stat(path))
      case Cut(_) => r := PowerCut;
      case Fails(_) => r := Ran(None);
      case Works => r := Ran(if path in files then Some(|files[path]|) else None);
    }

    /** An operation that changes a file; whether it worked */
    method Change(p: Point, path: Path, good: Option<string>) returns (r: Outcome<bool>)
      modifies this`files
      ensures files == Left(old(files), fates(p), path, good)
      ensures r == if fates(p).Cut? then PowerCut else Ran(fates(p).Works?)
    {
      match fates(p)
      case Cut(left) => files, r := Put(files, path, left), PowerCut;
      case Fails(left) => files, r := Put(files, path, left), Ran(false);
      case Works => files, r := Put(files, path, good), Ran(true);
    }

    /** `_autokeys_marker_matches`: the buffer has room for one byte more than the revision. */
    method MarkerMatches(path: Path, v: string) returns (r: Outcome<bool>)
      ensures r == if MarkerCut(files, fates, path) then PowerCut else Ran(SeesMarker(files, fates, path, v))
    {
      if fates(Open(path)).Cut? { return PowerCut; }
      if !fates(Open(path)).Works? || path !in files { return Ran(false); }
      if fates(Read(path)).Cut? { return PowerCut; }
      var content := files[path];
      var n := if |content| < |v| + 1 then |content| else |v| + 1;
      var version := content[..n];
      r := Ran(fates(Read(path)).Works? && n == |v| && version == v);
      assert n == |v| ==> version == content;
    }

    method FindKeys() returns (r: Outcome<bool>)
      ensures r == if KeysCut(files, fates) then PowerCut else Ran(SeesKeys(files, fates))
    {
      var prod :- StatFile(ProdKeys);
      if prod.Some? && prod.value != 0 { return Ran(true); }
      var dev :- StatFile(DevKeys);
      return Ran(dev.Some? && dev.value != 0);
    }

    /** `_autokeys_run`. The result says whether Lockpick was started, which does not return. */
    method AutokeysRun(v: string, enabled: bool) returns (r: Outcome<bool>)
      modifies this
      ensures files == Boot(old(files), v, enabled, fates).files
      ensures events == old(events) + Boot(old(files), v, enabled, fates).events
      ensures r == Ran(true) <==> Started(v) in Boot(old(files), v, enabled, fates).events
    {
      hide Try, SeesKeys, KeysCut, SeesMarker, MarkerCut;
      if fates(Config).Cut? { return PowerCut; }
      if !enabled { return Ran(false); }
      var lockpick :- StatFile(Lockpick);
      if lockpick.None? { return Ran(false); }
      var keys :- FindKeys();
      if keys {
        var complete :- MarkerMatches(Version, v);
        if complete {
          events := events + [SawCompletion(v)];
          var cleared :- Change(Unlink(Attempt), Attempt, None);
          var dropped :- Change(Unlink(Request), Request, None);
          return Ran(false);
        }
      }
      var attempted :- MarkerMatches(Attempt, v);
      if attempted { return Ran(false); }
      events := events + (if Content(files, Attempt) == Some(v) then [Unreadable(v)] else []) + [Rewrote(v)];
      r := WriteAndLaunch(v);
    }

    /** Lines 788-804 */
    method WriteAndLaunch(v: string) returns (r: Outcome<bool>)
      modifies this
      ensures var a := Try(Left(old(files), fates(Create(Attempt)), Attempt, Some("")), v, fates);
              files == a.files && events == old(events) + a.events && (r == Ran(true) <==> Started(v) in a.events)
    {
      var created :- Change(Create(Attempt), Attempt, Some(""));
      if !created { return Ran(false); }
      var written :- Change(Write(Attempt), Attempt, Some(v));
      var closed :- Change(Close(Attempt), Attempt, Content(files, Attempt));
      if !written || !closed { return Ran(false); }
      r := RequestAndLaunch(v);
    }

    /** Lines 794-804 */
    method RequestAndLaunch(v: string) returns (r: Outcome<bool>)
      modifies this
      ensures var a := Hand(old(files), v, fates);
              files == a.files && events == old(events) + a.events && (r == Ran(true) <==> Started(v) in a.events)
    {
      var created :- Change(Create(Request), Request, Some(""));
      if !created { return Ran(false); }
      var closed :- Change(Close(Request), Request, Content(files, Request));
      if !closed { return Ran(false); }
      if fates(Launch).Cut? { return PowerCut; }
      if fates(Launch).Works? && Lockpick in files && |files[Lockpick]| <= MAX_PAYLOAD {
        events := events + [Started(v)];
        return Ran(true);
      }
      var dropped :- Change(Unlink(Request), Request, None);
      return Ran(false);
    }
  }
}
