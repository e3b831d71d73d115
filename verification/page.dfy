/** The page-level behaviour of src/scripts.js: the notation shown for the
    enabled notes, the swatch click handlers, and the palette callback of
    `getImagePalette` that classifies, names and registers a new set of notes
    and enables the first three. */
module Page {
  import opened Wrappers
  import opened Seqs
  import opened Photism
  import opened Naming
  import opened NoteConfig

  /** `maxDefaultEnable` */
  const MaxDefaultEnable: nat := 3

  /** What `renderNotes` leaves in the `#notation` element: nothing, or a
      staff with one whole-note voice per name, in the order given. */
  datatype Notation = Blank | Staff(voices: seq<string>)

  /** `renderNotes`: the element is emptied, and a staff is drawn only when there is a note. */
  function RenderNotes(notes: seq<string>): (s: Notation)
    ensures s.Blank? <==> |notes| == 0
    ensures s.Staff? ==> s.voices == notes
  {
    if |notes| < 1 then Blank else Staff(notes)
  }

  /** `renderActiveNotes` */
  function RenderActiveNotes(config: Registry): (s: Notation)
  {
    RenderNotes(ActiveNotes(config))
  }

  /** `renderActiveNotes` draws exactly the enabled notes, and leaves the
      notation blank exactly when no note is enabled. */
  lemma RenderActiveNotesShows(config: Registry)
    ensures forall x :: Shown(RenderActiveNotes(config), x) <==> IsEnabled(config, x)
    ensures RenderActiveNotes(config).Blank? <==> forall i :: 0 <= i < |config| ==> !config[i].enabled
  {
    if RenderActiveNotes(config).Blank? {
      forall i | 0 <= i < |config|
        ensures !config[i].enabled
      {
        if config[i].enabled {
          assert IsEnabled(config, config[i].name);
        }
      }
    } else {
      var x := ActiveNotes(config)[0];
      assert x in ActiveNotes(config);
      var i :| 0 <= i < |config| && config[i].name == x && config[i].enabled;
    }
  }

  /** The registry `window.noteConfig` and the rendered notation. */
  datatype PageState = PageState(config: Registry, notation: Notation)

  /** On load the registry is `{}` and nothing is rendered. */
  const Initial: PageState := PageState([], Blank)

  /** The page on load is consistent, and no swatch can be toggled yet. */
  lemma InitialPage(name: string)
    ensures Consistent(Initial) && ActiveNotes(Initial.config) == []
    ensures ClickSwatch(Initial, name) == Failure(UnknownName(name))
  {
  }

  /** The notation shows exactly the enabled notes. */
  ghost predicate Consistent(p: PageState) {
    Valid(p.config) && p.notation == RenderActiveNotes(p.config)
  }

  /** Note `name` is drawn on the staff. */
  predicate Shown(s: Notation, name: string) {
    s.Staff? && name in s.voices
  }

  // ---------------------------------------------------------------------
  // The enable / disable closures and the swatch click handler
  // ---------------------------------------------------------------------

  /** The `enable` closure of a note: set its flag, then re-render. */
  function EnableNote(p: PageState, name: string): (r: Result<PageState, RegistryError>)
    requires Valid(p.config)
    ensures r.Success? <==> name in Names(p.config)
    ensures r.Success? ==> Consistent(r.value) && Names(r.value.config) == Names(p.config)
    ensures r.Success? ==> IsEnabled(r.value.config, name)
    ensures r.Success? ==> forall i :: 0 <= i < |p.config| && p.config[i].name != name ==> r.value.config[i] == p.config[i]
    ensures r.Success? ==> forall i :: 0 <= i < |p.config| ==> r.value.config[i].color == p.config[i].color
  {
    match Enable(p.config, name)
    case Success(config) => Success(PageState(config, RenderActiveNotes(config)))
    case Failure(e) => Failure(e)
  }

  /** The `disable` closure of a note: clear its flag, then re-render. */
  function DisableNote(p: PageState, name: string): (r: Result<PageState, RegistryError>)
    requires Valid(p.config)
    ensures r.Success? <==> name in Names(p.config)
    ensures r.Success? ==> Consistent(r.value) && Names(r.value.config) == Names(p.config)
    ensures r.Success? ==> !IsEnabled(r.value.config, name)
    ensures r.Success? ==> forall i :: 0 <= i < |p.config| && p.config[i].name != name ==> r.value.config[i] == p.config[i]
    ensures r.Success? ==> forall i :: 0 <= i < |p.config| ==> r.value.config[i].color == p.config[i].color
  {
    match Disable(p.config, name)
    case Success(config) => Success(PageState(config, RenderActiveNotes(config)))
    case Failure(e) => Failure(e)
  }

  /** After `enable` the note is drawn, and every other note is drawn exactly when it was enabled before. */
  lemma EnableNoteShows(p: PageState, name: string)
    requires Valid(p.config) && name in Names(p.config)
    ensures Shown(EnableNote(p, name).value.notation, name)
    ensures forall x :: x != name ==> (Shown(EnableNote(p, name).value.notation, x) <==> IsEnabled(p.config, x))
  {
    var config := EnableNote(p, name).value.config;
    EnabledAfterUpdate(p.config, config, name);
  }

  /** After `disable` the note is not drawn, and every other note is drawn exactly when it was enabled before. */
  lemma DisableNoteHides(p: PageState, name: string)
    requires Valid(p.config) && name in Names(p.config)
    ensures !Shown(DisableNote(p, name).value.notation, name)
    ensures forall x :: x != name ==> (Shown(DisableNote(p, name).value.notation, x) <==> IsEnabled(p.config, x))
  {
    var config := DisableNote(p, name).value.config;
    EnabledAfterUpdate(p.config, config, name);
  }

  /** An update that touches only `name`'s entry leaves every other flag as it was. */
  lemma EnabledAfterUpdate(before: Registry, after: Registry, name: string)
    requires |after| == |before|
    requires forall i :: 0 <= i < |before| && before[i].name != name ==> after[i] == before[i]
    requires Names(after) == Names(before)
    ensures forall x :: x != name ==> (IsEnabled(after, x) <==> IsEnabled(before, x))
  {
    forall x | x != name
      ensures IsEnabled(after, x) <==> IsEnabled(before, x)
    {
      if IsEnabled(after, x) {
        var i :| 0 <= i < |after| && after[i].name == x && after[i].enabled;
        assert Names(before)[i] == x;
      }
    }
  }

  /** A click on a note's swatch: disable it when enabled, enable it otherwise. */
  function ClickSwatch(p: PageState, name: string): (r: Result<PageState, RegistryError>)
    requires Valid(p.config)
    ensures r.Success? <==> name in Names(p.config)
    ensures r.Success? ==> Consistent(r.value) && Names(r.value.config) == Names(p.config)
    ensures r.Success? ==> (IsEnabled(r.value.config, name) <==> !IsEnabled(p.config, name))
    ensures r.Success? ==> (Shown(r.value.notation, name) <==> !IsEnabled(p.config, name))
    ensures r.Success? ==> forall x :: x != name ==> (Shown(r.value.notation, x) <==> IsEnabled(p.config, x))
    ensures r.Success? ==> forall i :: 0 <= i < |p.config| && p.config[i].name != name ==> r.value.config[i] == p.config[i]
    ensures r.Success? ==> forall i :: 0 <= i < |p.config| ==> r.value.config[i].color == p.config[i].color
  {
    if IsEnabled(p.config, name) then
      DisableNoteHides(p, name);
      DisableNote(p, name)
    else if name in Names(p.config) then
      EnableNoteShows(p, name);
      EnableNote(p, name)
    else
      EnableNote(p, name)
  }

  /** Clicking the same swatch twice restores a consistent page. */
  lemma ClickTwice(p: PageState, name: string)
    requires Consistent(p) && name in Names(p.config)
    ensures ClickSwatch(p, name).Success?
    ensures ClickSwatch(ClickSwatch(p, name).value, name) == Success(p)
  {
    ToggleTwice(p.config, name);
    var once := ClickSwatch(p, name).value;
    assert once.config == Toggle(p.config, name).value;
    assert ClickSwatch(once, name).value.config == p.config;
  }

  // ---------------------------------------------------------------------
  // The default-enable loop
  // ---------------------------------------------------------------------

  /** `for (let note in window.noteConfig)` over `keys`: while fewer than
      three notes have been enabled, enable the next key. */
  function EnableDefaults(p: PageState, keys: seq<string>, iter: nat): (q: PageState)
    requires Valid(p.config)
    requires forall k :: k in keys ==> k in Names(p.config)
    ensures Valid(q.config) && Names(q.config) == Names(p.config)
    ensures forall j :: 0 <= j < |p.config| ==> q.config[j].color == p.config[j].color
    ensures forall j :: 0 <= j < |p.config| && p.config[j].enabled ==> q.config[j].enabled
    ensures forall j :: 0 <= j < |p.config| && q.config[j].enabled && !p.config[j].enabled ==> p.config[j].name in keys
    decreases |keys|
  {
    if |keys| == 0 then p
    else if iter < MaxDefaultEnable then
      var q := EnableNote(p, keys[0]).value;
      EnableDefaults(q, keys[1..], iter + 1)
    else
      EnableDefaults(p, keys[1..], iter)
  }

  /** Once three notes are enabled the loop changes nothing. */
  lemma {:induction false} EnableDefaultsDone(p: PageState, keys: seq<string>, iter: nat)
    requires Valid(p.config) && forall k :: k in keys ==> k in Names(p.config)
    requires iter >= MaxDefaultEnable
    ensures EnableDefaults(p, keys, iter) == p
    decreases |keys|
  {
    if |keys| > 0 {
      EnableDefaultsDone(p, keys[1..], iter);
    }
  }

  /** Enabling the key at position `from` sets that flag alone and re-renders. */
  lemma EnableAt(p: PageState, from: nat)
    requires Valid(p.config) && from < |p.config|
    ensures EnableNote(p, Names(p.config)[from]).Success?
    ensures var q := EnableNote(p, Names(p.config)[from]).value;
      && Valid(q.config) && Names(q.config) == Names(p.config)
      && q.notation == RenderActiveNotes(q.config)
      && (forall j :: 0 <= j < |q.config| ==> q.config[j].enabled == (p.config[j].enabled || j == from))
      && (forall j :: 0 <= j < |q.config| ==> q.config[j].color == p.config[j].color)
  {
    var q := EnableNote(p, Names(p.config)[from]).value;
    forall j | 0 <= j < |p.config| && j != from
      ensures q.config[j] == p.config[j]
    {
      assert Names(p.config)[j] != Names(p.config)[from];
    }
  }

  /** What the default-enable loop leaves behind, relative to the page `p`
      it started from at key position `from` with `iter` notes enabled. */
  ghost predicate DefaultsEnabled(p: PageState, q: PageState, from: nat, iter: nat) {
    && Valid(q.config) && Names(q.config) == Names(p.config)
    && (forall j :: 0 <= j < |q.config| ==>
          q.config[j].enabled == (p.config[j].enabled || (from <= j && j - from + iter < MaxDefaultEnable)))
    && (forall j :: 0 <= j < |q.config| ==> q.config[j].color == p.config[j].color)
    && (from < |p.config| && iter < MaxDefaultEnable ==> q.notation == RenderActiveNotes(q.config))
    && (!(from < |p.config| && iter < MaxDefaultEnable) ==> q.notation == p.notation)
  }

  /** Run over the keys from position `from` with `iter` notes already enabled,
      the loop enables exactly the keys at positions `from` to
      `from + 2 - iter`, touches nothing else, and leaves a re-rendered
      notation behind exactly when it enabled something. */
  lemma {:induction false} EnableDefaultsSpec(p: PageState, from: nat, iter: nat)
    requires Valid(p.config) && from <= |p.config|
    ensures DefaultsEnabled(p, EnableDefaults(p, Names(p.config)[from..], iter), from, iter)
    decreases |p.config| - from
  {
    if from == |p.config| || iter >= MaxDefaultEnable {
      EnableDefaultsIdle(p, from, iter);
    } else {
      var q := EnableNote(p, Names(p.config)[from]).value;
      EnableDefaultsSpec(q, from + 1, iter + 1);
      EnableDefaultsStep(p, from, iter);
    }
  }

  /** Past the last key, or once three notes are enabled, the loop changes nothing. */
  lemma EnableDefaultsIdle(p: PageState, from: nat, iter: nat)
    requires Valid(p.config) && from <= |p.config|
    requires from == |p.config| || iter >= MaxDefaultEnable
    ensures DefaultsEnabled(p, EnableDefaults(p, Names(p.config)[from..], iter), from, iter)
  {
    var keys := Names(p.config)[from..];
    if from == |p.config| {
      assert EnableDefaults(p, keys, iter) == p;
    } else {
      EnableDefaultsDone(p, keys, iter);
    }
  }

  /** Enabling the key at `from` and then running the loop from `from + 1` satisfies the loop's description from `from`. */
  lemma EnableDefaultsStep(p: PageState, from: nat, iter: nat)
    requires Valid(p.config) && from < |p.config| && iter < MaxDefaultEnable
    requires EnableNote(p, Names(p.config)[from]).Success?
    requires var q := EnableNote(p, Names(p.config)[from]).value;
      DefaultsEnabled(q, EnableDefaults(q, Names(q.config)[from + 1..], iter + 1), from + 1, iter + 1)
    ensures DefaultsEnabled(p, EnableDefaults(p, Names(p.config)[from..], iter), from, iter)
  {
    EnableAt(p, from);
    var q := EnableNote(p, Names(p.config)[from]).value;
    EnableDefaultsUnfold(p, from, iter);
    DefaultsEnabledAfterOne(p, q, EnableDefaults(q, Names(q.config)[from + 1..], iter + 1), from, iter);
  }

  /** The loop enabling key `from` is that enable followed by the loop from `from + 1`. */
  lemma EnableDefaultsUnfold(p: PageState, from: nat, iter: nat)
    requires Valid(p.config) && from < |p.config| && iter < MaxDefaultEnable
    ensures EnableNote(p, Names(p.config)[from]).Success?
    ensures var q := EnableNote(p, Names(p.config)[from]).value;
      && Valid(q.config) && Names(q.config) == Names(p.config)
      && EnableDefaults(p, Names(p.config)[from..], iter) == EnableDefaults(q, Names(q.config)[from + 1..], iter + 1)
      && (iter + 1 >= MaxDefaultEnable ==> EnableDefaults(q, Names(q.config)[from + 1..], iter + 1) == q)
  {
    var keys := Names(p.config)[from..];
    assert keys[1..] == Names(p.config)[from + 1..];
    var q := EnableNote(p, keys[0]).value;
    if iter + 1 >= MaxDefaultEnable {
      EnableDefaultsDone(q, keys[1..], iter + 1);
    }
  }

  /** Enabling key `from` and then running the rest of the loop is the loop from `from`. */
  lemma DefaultsEnabledAfterOne(p: PageState, q: PageState, r: PageState, from: nat, iter: nat)
    requires from < |p.config| && iter < MaxDefaultEnable
    requires Valid(q.config) && Names(q.config) == Names(p.config)
    requires q.notation == RenderActiveNotes(q.config)
    requires forall j :: 0 <= j < |q.config| ==> q.config[j].enabled == (p.config[j].enabled || j == from)
    requires forall j :: 0 <= j < |q.config| ==> q.config[j].color == p.config[j].color
    requires DefaultsEnabled(q, r, from + 1, iter + 1)
    requires iter + 1 >= MaxDefaultEnable ==> r == q
    ensures DefaultsEnabled(p, r, from, iter)
  {
    if !(from + 1 < |q.config| && iter + 1 < MaxDefaultEnable) {
      assert r == q;
    }
  }

  /** A registry whose flags are set on exactly its first `m` entries lists those entries as active. */
  lemma {:induction false} ActiveNotesOfPrefix(reg: Registry, m: nat)
    requires forall j :: 0 <= j < |reg| ==> (reg[j].enabled <==> j < m)
    ensures ActiveNotes(reg) == Names(reg)[..if m < |reg| then m else |reg|]
  {
    if |reg| > 0 {
      var n := |reg| - 1;
      var init := reg[..n];
      assert forall j :: 0 <= j < |init| ==> init[j] == reg[j];
      ActiveNotesOfPrefix(init, m);
      ActiveNotesLast(reg);
      var keys := Names(init);
      PrefixStep(keys, reg[n].name, Names(reg), m);
      if n < m {
        assert ActiveNotes(reg) == keys[..if m < |keys| then m else |keys|] + [reg[n].name];
      } else {
        assert ActiveNotes(reg) == keys[..if m < |keys| then m else |keys|];
      }
    }
  }

  /** `ActiveNotes` looks at the last key after all the others. */
  lemma ActiveNotesLast(reg: Registry)
    requires |reg| > 0
    ensures ActiveNotes(reg) == if reg[|reg| - 1].enabled then ActiveNotes(reg[..|reg| - 1]) + [reg[|reg| - 1].name] else ActiveNotes(reg[..|reg| - 1])
    ensures Names(reg) == Names(reg[..|reg| - 1]) + [reg[|reg| - 1].name]
  {
    NamesLast(reg);
  }

  lemma NamesLast(reg: Registry)
    requires |reg| > 0
    ensures Names(reg) == Names(reg[..|reg| - 1]) + [reg[|reg| - 1].name]
  {
    assert Names(reg) == Names(reg[..|reg| - 1]) + [reg[|reg| - 1].name];
  }

  /** The prefix of length `m` of `keys + [x]`, by whether `x` falls inside it. */
  lemma PrefixStep(keys: seq<string>, x: string, all: seq<string>, m: nat)
    requires all == keys + [x]
    ensures |keys| < m ==> all[..if m < |all| then m else |all|] == keys[..if m < |keys| then m else |keys|] + [x]
    ensures |keys| >= m ==> all[..if m < |all| then m else |all|] == keys[..if m < |keys| then m else |keys|]
  {
    if |keys| >= m {
      assert all[..m] == keys[..m];
    }
  }

  // ---------------------------------------------------------------------
  // The palette callback of getImagePalette
  // ---------------------------------------------------------------------

  /** The palette's colours in order, skipping the null slots. */
  function Swatches(palette: seq<Option<Rgb>>): (colors: seq<Rgb>)
    ensures |colors| <= |palette|
    ensures forall c :: c in colors <==> Some(c) in palette
    ensures (forall i :: 0 <= i < |palette| ==> palette[i].None?) <==> |colors| == 0
  {
    if |palette| == 0 then []
    else
      var n := |palette| - 1;
      var init := Swatches(palette[..n]);
      assert palette == palette[..n] + [palette[n]];
      match palette[n]
      case None => init
      case Some(c) => init + [c]
  }

  /** Filtering a concatenation filters each part and keeps them in order,
      so the colours appear in slot order, each as often as its slots. */
  lemma {:induction false} SwatchesAppend(a: seq<Option<Rgb>>, b: seq<Option<Rgb>>)
    ensures Swatches(a + b) == Swatches(a) + Swatches(b)
    decreases |b|
  {
    if |b| == 0 {
      assert a + b == a;
    } else {
      var n := |b| - 1;
      SwatchesAppend(a, b[..n]);
      SwatchesLast(a + b);
      SwatchesLast(b);
      assert (a + b)[..|a + b| - 1] == a + b[..n];
    }
  }

  /** The last slot contributes its colour, if any, after the others. */
  lemma SwatchesLast(s: seq<Option<Rgb>>)
    requires |s| > 0
    ensures Swatches(s) == Swatches(s[..|s| - 1]) + (if s[|s| - 1].Some? then [s[|s| - 1].value] else [])
  {
  }

  /** A null slot contributes nothing; a colour slot contributes its colour. */
  lemma SwatchesSingle(c: Rgb)
    ensures Swatches([None]) == []
    ensures Swatches([Some(c)]) == [c]
  {
    var none: seq<Option<Rgb>> := [None];
    assert none[..0] == [];
    assert [Some(c)][..0] == [];
  }

  /** `colorToNote` applied to each colour, in order. */
  function Classify(table: Table, colors: seq<Rgb>): (notes: seq<Note>)
    requires WellFormed(table)
    ensures |notes| == |colors|
    ensures !HasNote(table, "A") ==> forall i :: 0 <= i < |notes| ==> notes[i] == "A"
    ensures HasNote(table, "A") ==> forall i :: 0 <= i < |notes| ==> Nearest(table, colors[i], notes[i])
    ensures HasNote(table, "A") ==> forall i :: 0 <= i < |notes| && Nearest(table, colors[i], "A") ==> notes[i] == "A"
    ensures HasNote(table, "A") ==> forall i :: 0 <= i < |notes| && !Nearest(table, colors[i], "A") ==> FirstNearest(table, colors[i], notes[i])
  {
    seq(|colors|, i requires 0 <= i < |colors| => ColorToNote(table, colors[i]))
  }

  /** The registration loop, from a registry reset to `{}`: the keys are the
      generated names in order of first occurrence, all disabled, each with
      the colour of its last registration. */
  function Populate(table: Table, palette: seq<Option<Rgb>>): (config: Registry)
    requires WellFormed(table)
    ensures RegisteredFrom(config, NameAll(Classify(table, Swatches(palette))), Swatches(palette))
  {
    var colors := Swatches(palette);
    RegisterAll(NameAll(Classify(table, colors)), colors)
  }

  /** The palette callback as written: reset and fill the registry, then run
      the default-enable loop. Exactly the first three keys end up enabled.
      Rendering happens only inside `enable`, so the notation matches the
      registry when something was registered, and a run that registers
      nothing leaves the previous notation on the page. */
  function RunAsWritten(table: Table, palette: seq<Option<Rgb>>, p: PageState): (q: PageState)
    requires WellFormed(table)
    ensures Valid(q.config) && Names(q.config) == Names(Populate(table, palette))
    ensures forall j :: 0 <= j < |q.config| ==> (q.config[j].enabled <==> j < MaxDefaultEnable)
    ensures |q.config| > 0 ==> Consistent(q)
    ensures |q.config| == 0 ==> q.notation == p.notation
  {
    var config := Populate(table, palette);
    DefaultsOnFreshRegistry(config, p.notation);
    EnableDefaultsSpec(PageState(config, p.notation), 0, 0);
    assert Names(config)[0..] == Names(config);
    EnableDefaults(PageState(config, p.notation), Names(config), 0)
  }

  /** The palette callback with the notation re-rendered once the defaults
      are enabled: the page is always consistent. */
  function Run(table: Table, palette: seq<Option<Rgb>>, p: PageState): (q: PageState)
    requires WellFormed(table)
    ensures Consistent(q)
    ensures Names(q.config) == Names(Populate(table, palette))
    ensures forall j :: 0 <= j < |q.config| ==> (q.config[j].enabled <==> j < MaxDefaultEnable)
  {
    var q := RunAsWritten(table, palette, p);
    PageState(q.config, RenderActiveNotes(q.config))
  }

  /** Re-rendering after the default-enable loop on a registry with no note
      enabled: exactly the first three (or fewer) keys are enabled, and the
      notation shows them. */
  lemma DefaultsOnFreshRegistry(config: Registry, notation: Notation)
    requires Valid(config) && forall j :: 0 <= j < |config| ==> !config[j].enabled
    ensures var q := EnableDefaults(PageState(config, notation), Names(config), 0);
      && Valid(q.config) && Names(q.config) == Names(config)
      && (forall j :: 0 <= j < |q.config| ==> (q.config[j].enabled <==> j < MaxDefaultEnable))
      && RenderActiveNotes(q.config) == RenderNotes(Names(config)[..if |config| < MaxDefaultEnable then |config| else MaxDefaultEnable])
  {
    var p := PageState(config, notation);
    EnableDefaultsSpec(p, 0, 0);
    assert Names(config)[0..] == Names(config);
    var q := EnableDefaults(p, Names(config), 0);
    ActiveNotesOfPrefix(q.config, MaxDefaultEnable);
  }

  /** After a run the keys are the distinct generated names in order of
      first registration, exactly the first three (or fewer) are enabled,
      and the notation shows them. */
  lemma RunResult(table: Table, palette: seq<Option<Rgb>>, p: PageState)
    requires WellFormed(table)
    ensures var q := Run(table, palette, p);
      && Consistent(q)
      && FirstOccurrenceOrder(Names(q.config), NameAll(Classify(table, Swatches(palette))))
      && (forall j :: 0 <= j < |q.config| ==> (q.config[j].enabled <==> j < MaxDefaultEnable))
      && q.notation == RenderNotes(Names(q.config)[..if |q.config| < MaxDefaultEnable then |q.config| else MaxDefaultEnable])
  {
    var config := Populate(table, palette);
    RegisteredKeys(config, NameAll(Classify(table, Swatches(palette))), Swatches(palette));
    ShowsFirstKeys(Run(table, palette, p));
  }

  /** A consistent page whose first three keys alone are enabled shows those keys. */
  lemma ShowsFirstKeys(q: PageState)
    requires Consistent(q)
    requires forall j :: 0 <= j < |q.config| ==> (q.config[j].enabled <==> j < MaxDefaultEnable)
    ensures q.notation == RenderNotes(Names(q.config)[..if |q.config| < MaxDefaultEnable then |q.config| else MaxDefaultEnable])
  {
    ActiveNotesOfPrefix(q.config, MaxDefaultEnable);
  }

  /** The registry the default-enable loop leaves behind does not depend on
      the notation on the page. */
  lemma {:induction false} EnableDefaultsIgnoresNotation(config: Registry, n1: Notation, n2: Notation, keys: seq<string>, iter: nat)
    requires Valid(config) && forall k :: k in keys ==> k in Names(config)
    ensures EnableDefaults(PageState(config, n1), keys, iter).config == EnableDefaults(PageState(config, n2), keys, iter).config
    decreases |keys|
  {
    if |keys| > 0 {
      if iter < MaxDefaultEnable {
        var q1 := EnableNote(PageState(config, n1), keys[0]).value;
        var q2 := EnableNote(PageState(config, n2), keys[0]).value;
        assert q1.config == q2.config;
        EnableDefaultsIgnoresNotation(q1.config, q1.notation, q2.notation, keys[1..], iter + 1);
      } else {
        EnableDefaultsIgnoresNotation(config, n1, n2, keys[1..], iter);
      }
    }
  }

  /** As written, the registry a palette leaves behind does not depend on the
      previous page, because the callback starts from `{}` and no existing notes. */
  lemma RunAsWrittenResetsRegistry(table: Table, palette: seq<Option<Rgb>>, p1: PageState, p2: PageState)
    requires WellFormed(table)
    ensures RunAsWritten(table, palette, p1).config == RunAsWritten(table, palette, p2).config
  {
    var config := Populate(table, palette);
    EnableDefaultsIgnoresNotation(config, p1.notation, p2.notation, Names(config), 0);
  }

  /** With the corrected callback, a run keeps nothing at all of the page it replaces. */
  lemma RunDiscardsPrevious(table: Table, palette: seq<Option<Rgb>>, p1: PageState, p2: PageState)
    requires WellFormed(table)
    ensures Run(table, palette, p1) == Run(table, palette, p2)
  {
    var config := Populate(table, palette);
    EnableDefaultsIgnoresNotation(config, p1.notation, p2.notation, Names(config), 0);
  }

  /** A run registers at most two names per distinct note it classified. */
  lemma RunAtMostTwoPerNote(table: Table, palette: seq<Option<Rgb>>, p: PageState)
    requires WellFormed(table)
    ensures |Run(table, palette, p).config| <= 2 * |set n | n in Classify(table, Swatches(palette))|
  {
    var notes := Classify(table, Swatches(palette));
    var config := Populate(table, palette);
    DefaultsOnFreshRegistry(config, p.notation);
    RegistryAtMostTwoPerNote(config, notes);
  }

  lemma RegistryAtMostTwoPerNote(config: Registry, notes: seq<Note>)
    requires Valid(config) && forall x :: x in Names(config) <==> x in NameAll(notes)
    ensures |config| <= 2 * |set n | n in notes|
  {
    NoDupCardinality(Names(config));
    assert (set x | x in Names(config)) == (set x | x in NameAll(notes));
    AtMostTwoNamesPerNote(notes);
  }

  /** When the run registers at least one note, the source already behaves as `Run`. */
  lemma RunAsWrittenAgrees(table: Table, palette: seq<Option<Rgb>>, p: PageState)
    requires WellFormed(table) && exists i :: 0 <= i < |palette| && palette[i].Some?
    ensures RunAsWritten(table, palette, p) == Run(table, palette, p)
  {
    var config := Populate(table, palette);
    EnableDefaultsSpec(PageState(config, p.notation), 0, 0);
  }

  /** When every palette slot is null the source empties the registry but
      leaves the old notation on the page. */
  lemma RunAsWrittenKeepsStaleNotation(table: Table, palette: seq<Option<Rgb>>, p: PageState)
    requires WellFormed(table) && forall i :: 0 <= i < |palette| ==> palette[i].None?
    ensures RunAsWritten(table, palette, p) == PageState([], p.notation)
  {
  }

  /** A concrete instance: one enabled note on the page, then an image whose
      palette has only null slots. */
  lemma StaleNotationExample()
    ensures var table := [Reference("A", Rgb(255, 0, 0))];
      var p := PageState([Entry("A4", true, Rgb(250, 0, 0))], Staff(["A4"]));
      && Consistent(p)
      && RunAsWritten(table, [None], p) == PageState([], Staff(["A4"]))
      && !Consistent(RunAsWritten(table, [None], p))
      && Run(table, [None], p) == PageState([], Blank)
  {
    var table := [Reference("A", Rgb(255, 0, 0))];
    var reg := [Entry("A4", true, Rgb(250, 0, 0))];
    assert ActiveNotes(reg) == ActiveNotes(reg[..0]) + ["A4"];
    RunAsWrittenKeepsStaleNotation(table, [None], PageState(reg, Staff(["A4"])));
  }

  // ---------------------------------------------------------------------
  // An end-to-end run with a two-entry reference table
  // ---------------------------------------------------------------------

  /** The shape of the example: 'A' is pure red, 'B' pure blue, and the
      palette holds red, a null slot, red again and blue. */
  ghost predicate ExampleRun(table: Table, palette: seq<Option<Rgb>>, red: Rgb, blue: Rgb) {
    && red == Rgb(255, 0, 0) && blue == Rgb(0, 0, 255)
    && table == [Reference("A", red), Reference("B", blue)]
    && palette == [Some(red), None, Some(red), Some(blue)]
  }

  /** The example palette gives A4, A5 and B4, and all three are enabled and drawn. */
  lemma TwoRedsAndABlue(table: Table, palette: seq<Option<Rgb>>, red: Rgb, blue: Rgb, p: PageState)
    requires ExampleRun(table, palette, red, blue)
    ensures WellFormed(table)
    ensures Names(Run(table, palette, p).config) == ["A4", "A5", "B4"]
    ensures Run(table, palette, p).notation == Staff(["A4", "A5", "B4"])
  {
    ExampleNames(table, palette, red, blue);
    ThreeNamesRun(table, palette, p, ["A4", "A5", "B4"]);
  }

  /** A run whose generated names are three distinct names registers and
      draws exactly those, in order. */
  lemma ThreeNamesRun(table: Table, palette: seq<Option<Rgb>>, p: PageState, names: seq<string>)
    requires WellFormed(table) && NameAll(Classify(table, Swatches(palette))) == names
    requires |names| == 3 && NoDup(names)
    ensures Names(Run(table, palette, p).config) == names
    ensures Run(table, palette, p).notation == Staff(names)
  {
    RunResult(table, palette, p);
    ThreeNamesShown(Run(table, palette, p), names);
  }

  /** A valid page whose keys are three distinct names in order, showing its
      first three keys, shows exactly those names. */
  lemma ThreeNamesShown(q: PageState, names: seq<string>)
    requires |names| == 3 && NoDup(names)
    requires Valid(q.config) && FirstOccurrenceOrder(Names(q.config), names)
    requires q.notation == RenderNotes(Names(q.config)[..if |q.config| < MaxDefaultEnable then |q.config| else MaxDefaultEnable])
    ensures Names(q.config) == names
    ensures q.notation == Staff(names)
  {
    ThreeInOrder(Names(q.config), names);
    var shown := Names(q.config);
    assert shown[..3] == shown;
  }

  /** A registry whose keys are exactly three distinct names, ordered by
      their positions in `names`, lists them in that order. */
  lemma ThreeInOrder(keys: seq<string>, names: seq<string>)
    requires |names| == 3 && NoDup(names)
    requires NoDup(keys) && FirstOccurrenceOrder(keys, names)
    ensures keys == names
  {
    assert |keys| == 3 by {
      NoDupCardinality(keys);
      NoDupCardinality(names);
      assert (set x | x in keys) == (set x | x in names);
    }
    forall i | 0 <= i < 3
      ensures FirstIndex(names, names[i]) == i
    {
    }
    assert FirstIndex(names, keys[0]) < FirstIndex(names, keys[1]) < FirstIndex(names, keys[2]);
  }

  lemma ExampleNames(table: Table, palette: seq<Option<Rgb>>, red: Rgb, blue: Rgb)
    requires ExampleRun(table, palette, red, blue)
    ensures WellFormed(table)
    ensures NameAll(Classify(table, Swatches(palette))) == ["A4", "A5", "B4"]
    ensures NoDup(["A4", "A5", "B4"])
  {
    ExampleColors(table, red, blue);
    ExampleSwatches(palette, red, blue);
    ClassifyRepeatThenNew(table, red, blue);
    ExampleNaming();
  }

  /** A repeated note takes octave 5, a new one octave 4. */
  lemma ExampleNaming()
    ensures NameAll(["A", "A", "B"]) == ["A4", "A5", "B4"]
    ensures NoDup(["A4", "A5", "B4"])
  {
    var notes: seq<Note> := ["A", "A", "B"];
    assert notes[..0] == [] && notes[..1] == ["A"] && notes[..2] == ["A", "A"];
    assert "A" + FirstOctave == "A4" && "A" + LaterOctave == "A5" && "B" + FirstOctave == "B4";
  }

  lemma ClassifyRepeatThenNew(table: Table, x: Rgb, y: Rgb)
    requires WellFormed(table)
    ensures Classify(table, [x, x, y]) == [ColorToNote(table, x), ColorToNote(table, x), ColorToNote(table, y)]
  {
  }

  /** Each reference colour of the example is classified as its own note. */
  lemma ExampleColors(table: Table, red: Rgb, blue: Rgb)
    requires red == Rgb(255, 0, 0) && blue == Rgb(0, 0, 255)
    requires table == [Reference("A", red), Reference("B", blue)]
    ensures WellFormed(table)
    ensures ColorToNote(table, red) == "A" && ColorToNote(table, blue) == "B"
  {
    assert HasNote(table, "A") by { assert table[0].note == "A"; }
    ColorToNoteOwnColor(table, 0);
    ColorToNoteOwnColor(table, 1);
  }

  lemma ExampleSwatches(palette: seq<Option<Rgb>>, red: Rgb, blue: Rgb)
    requires palette == [Some(red), None, Some(red), Some(blue)]
    ensures Swatches(palette) == [red, red, blue]
  {
    assert palette[..3] == [Some(red), None, Some(red)];
    assert palette[..3][..2] == [Some(red), None];
    assert palette[..3][..2][..1] == [Some(red)];
    assert palette[..3][..2][..1][..0] == [];
    assert Swatches(palette[..3][..2][..1]) == [red];
    assert Swatches(palette[..3][..2]) == [red];
    assert Swatches(palette[..3]) == [red, red];
  }
}
