/** The active-note registry `window.noteConfig` of src/scripts.js: an
    insertion-ordered map from note name to an entry with an `enabled` flag.
    JavaScript enumerates keys that are canonical array indices first, in
    numeric order, and all other string keys in insertion order. A name is a
    reference-table key followed by an octave digit; the table's keys are
    letters, so no name is an array index and insertion order is the
    enumeration order. */
module NoteConfig {
  import opened Wrappers
  import opened Seqs
  import opened Photism

  /** One value of `window.noteConfig`; the swatch element and the closures are not modelled. */
  datatype Entry = Entry(name: string, enabled: bool, color: Rgb)

  /** The registry in key order. */
  type Registry = seq<Entry>

  datatype RegistryError = UnknownName(name: string)

  function Names(reg: Registry): (keys: seq<string>)
    ensures |keys| == |reg|
    ensures forall i :: 0 <= i < |reg| ==> keys[i] == reg[i].name
  {
    seq(|reg|, i requires 0 <= i < |reg| => reg[i].name)
  }

  /** Object keys are distinct. */
  predicate Valid(reg: Registry) {
    NoDup(Names(reg))
  }

  /** The position of key `name`, if registered. */
  function Find(reg: Registry, name: string): (k: Option<nat>)
    ensures k.Some? ==> k.value < |reg| && reg[k.value].name == name
    ensures k.None? <==> name !in Names(reg)
  {
    if name in Names(reg) then Some(FirstIndex(Names(reg), name)) else None
  }

  /** The name is registered and its flag is set. */
  predicate IsEnabled(reg: Registry, name: string) {
    exists i :: 0 <= i < |reg| && reg[i].name == name && reg[i].enabled
  }

  /** `window.noteConfig[finalNote] = {..., enabled: false, color}`: a new key
      is appended; an existing key is overwritten in place. */
  function Register(reg: Registry, name: string, color: Rgb): (r: Registry)
    requires Valid(reg)
    ensures Valid(r)
    ensures name in Names(reg) ==> Names(r) == Names(reg)
    ensures name !in Names(reg) ==> Names(r) == Names(reg) + [name]
    ensures forall i :: 0 <= i < |r| && r[i].name == name ==> r[i] == Entry(name, false, color)
    ensures forall i :: 0 <= i < |reg| && reg[i].name != name ==> r[i] == reg[i]
  {
    var entry := Entry(name, false, color);
    match Find(reg, name)
    case Some(k) =>
      var r := reg[k := entry];
      assert Names(r) == Names(reg);
      r
    case None =>
      var r := reg + [entry];
      assert Names(r) == Names(reg) + [name];
      r
  }

  /** The registry `r` holds the distinct `names` in order of first
      occurrence, every entry is disabled, and each entry holds the colour
      of the last occurrence of its name. */
  ghost predicate RegisteredFrom(r: Registry, names: seq<string>, colors: seq<Rgb>)
    requires |names| == |colors|
  {
    && Valid(r)
    && (forall x :: x in Names(r) <==> x in names)
    && (forall p, q :: 0 <= p < q < |r| ==> FirstIndex(names, r[p].name) < FirstIndex(names, r[q].name))
    && (forall p :: 0 <= p < |r| ==> !r[p].enabled)
    && (forall p :: 0 <= p < |r| ==> r[p].color == colors[LastIndex(names, r[p].name)])
  }

  /** `keys` holds exactly the elements of `names`, in order of their first occurrence there. */
  ghost predicate FirstOccurrenceOrder(keys: seq<string>, names: seq<string>) {
    && (forall x :: x in keys <==> x in names)
    && (forall i, j :: 0 <= i < j < |keys| ==>
          keys[i] in names && keys[j] in names && FirstIndex(names, keys[i]) < FirstIndex(names, keys[j]))
  }

  /** The keys of a registered sequence are its names in order of first occurrence. */
  lemma RegisteredKeys(r: Registry, names: seq<string>, colors: seq<Rgb>)
    requires |names| == |colors| && RegisteredFrom(r, names, colors)
    ensures FirstOccurrenceOrder(Names(r), names)
  {
  }

  /** Registers `names[i]` with `colors[i]` for each `i` in order, starting
      from an empty registry: the keys are the distinct names in order of
      first registration, every entry is disabled, and each entry holds the
      colour of the last registration of its name. */
  function RegisterAll(names: seq<string>, colors: seq<Rgb>): (r: Registry)
    requires |names| == |colors|
    ensures RegisteredFrom(r, names, colors)
    decreases |names|
  {
    if |names| == 0 then []
    else
      var n := |names| - 1;
      var prev := RegisterAll(names[..n], colors[..n]);
      RegisterAllLast(prev, names, colors);
      Register(prev, names[n], colors[n])
  }

  /** Registering one more name keeps what `RegisterAll` promises. */
  lemma RegisterAllStep(prev: Registry, init: seq<string>, cinit: seq<Rgb>, x: string, c: Rgb)
    requires |init| == |cinit|
    requires RegisteredFrom(prev, init, cinit)
    ensures RegisteredFrom(Register(prev, x, c), init + [x], cinit + [c])
  {
    RegisterKeepsMembers(prev, init, x, c);
    RegisterKeepsOrder(prev, init, x, c);
    RegisterKeepsColors(prev, init, cinit, x, c);
  }

  /** `RegisterAllStep` restated for the last element of `names`. */
  lemma RegisterAllLast(prev: Registry, names: seq<string>, colors: seq<Rgb>)
    requires |names| == |colors| && |names| > 0
    requires RegisteredFrom(prev, names[..|names| - 1], colors[..|names| - 1])
    ensures RegisteredFrom(Register(prev, names[|names| - 1], colors[|names| - 1]), names, colors)
  {
    var n := |names| - 1;
    RegisterAllStep(prev, names[..n], colors[..n], names[n], colors[n]);
    assert names[..n] + [names[n]] == names;
    assert colors[..n] + [colors[n]] == colors;
  }

  lemma RegisterKeepsMembers(prev: Registry, init: seq<string>, x: string, c: Rgb)
    requires Valid(prev) && forall y :: y in Names(prev) <==> y in init
    ensures forall y :: y in Names(Register(prev, x, c)) <==> y in init + [x]
  {
    var r := Register(prev, x, c);
    forall y
      ensures y in Names(r) <==> y in init + [x]
    {
      assert y in Names(r) <==> y in Names(prev) || y == x;
    }
  }

  lemma RegisterKeepsOrder(prev: Registry, init: seq<string>, x: string, c: Rgb)
    requires Valid(prev) && forall y :: y in Names(prev) <==> y in init
    requires forall p, q :: 0 <= p < q < |prev| ==> FirstIndex(init, prev[p].name) < FirstIndex(init, prev[q].name)
    ensures forall y :: y in Names(Register(prev, x, c)) ==> y in init + [x]
    ensures var r := Register(prev, x, c);
      forall p, q :: 0 <= p < q < |r| ==> FirstIndex(init + [x], r[p].name) < FirstIndex(init + [x], r[q].name)
  {
    RegisterKeepsMembers(prev, init, x, c);
    var r := Register(prev, x, c);
    var names := init + [x];
    forall p, q | 0 <= p < q < |r|
      ensures FirstIndex(names, r[p].name) < FirstIndex(names, r[q].name)
    {
      FirstIndexAppend(init, x, r[p].name);
      if x in init || q < |prev| {
        FirstIndexAppend(init, x, r[q].name);
      } else {
        assert r[q].name == x;
        assert x !in names[..FirstIndex(names, x)];
      }
    }
  }

  lemma RegisterKeepsColors(prev: Registry, init: seq<string>, cinit: seq<Rgb>, x: string, c: Rgb)
    requires |init| == |cinit|
    requires Valid(prev) && forall y :: y in Names(prev) <==> y in init
    requires forall p :: 0 <= p < |prev| ==> prev[p].color == cinit[LastIndex(init, prev[p].name)]
    ensures forall y :: y in Names(Register(prev, x, c)) ==> y in init + [x]
    ensures var r := Register(prev, x, c);
      forall p :: 0 <= p < |r| ==> r[p].color == (cinit + [c])[LastIndex(init + [x], r[p].name)]
  {
    RegisterKeepsMembers(prev, init, x, c);
    var r := Register(prev, x, c);
    forall p | 0 <= p < |r|
      ensures r[p].color == (cinit + [c])[LastIndex(init + [x], r[p].name)]
    {
      if r[p].name != x {
        LastIndexAppend(init, x, r[p].name);
      }
    }
  }

  /** The `enable` (flag = true) and `disable` (flag = false) closures. Calling
      either on a key that is not registered is a TypeError in the source,
      modelled as `UnknownName`. */
  function SetEnabled(reg: Registry, name: string, flag: bool): (r: Result<Registry, RegistryError>)
    ensures r.Success? <==> name in Names(reg)
    ensures r.Failure? ==> r.error == UnknownName(name)
    ensures r.Success? ==> Names(r.value) == Names(reg)
    ensures r.Success? ==> forall i :: 0 <= i < |reg| ==>
              r.value[i] == if reg[i].name == name then reg[i].(enabled := flag) else reg[i]
  {
    if name !in Names(reg) then Failure(UnknownName(name))
    else
      var r := seq(|reg|, i requires 0 <= i < |reg| => if reg[i].name == name then reg[i].(enabled := flag) else reg[i]);
      assert Names(r) == Names(reg);
      Success(r)
  }

  function Enable(reg: Registry, name: string): (r: Result<Registry, RegistryError>)
    requires Valid(reg)
    ensures r.Success? <==> name in Names(reg)
    ensures r.Success? ==> Valid(r.value) && Names(r.value) == Names(reg)
    ensures r.Success? ==> IsEnabled(r.value, name)
    ensures r.Success? ==> forall i :: 0 <= i < |reg| && reg[i].name != name ==> r.value[i] == reg[i]
    ensures r.Success? ==> forall i :: 0 <= i < |reg| ==> r.value[i].color == reg[i].color
  {
    SetEnabled(reg, name, true)
  }

  function Disable(reg: Registry, name: string): (r: Result<Registry, RegistryError>)
    requires Valid(reg)
    ensures r.Success? <==> name in Names(reg)
    ensures r.Success? ==> Valid(r.value) && Names(r.value) == Names(reg)
    ensures r.Success? ==> !IsEnabled(r.value, name)
    ensures r.Success? ==> forall i :: 0 <= i < |reg| && reg[i].name != name ==> r.value[i] == reg[i]
    ensures r.Success? ==> forall i :: 0 <= i < |reg| ==> r.value[i].color == reg[i].color
  {
    SetEnabled(reg, name, false)
  }

  /** The swatch click handler: disable an enabled note, enable a disabled one. */
  function Toggle(reg: Registry, name: string): (r: Result<Registry, RegistryError>)
    requires Valid(reg)
    ensures r.Success? <==> name in Names(reg)
    ensures r.Success? ==> Valid(r.value) && Names(r.value) == Names(reg)
    ensures r.Success? ==> (IsEnabled(r.value, name) <==> !IsEnabled(reg, name))
    ensures r.Success? ==> forall i :: 0 <= i < |reg| && reg[i].name != name ==> r.value[i] == reg[i]
    ensures r.Success? ==> forall i :: 0 <= i < |reg| ==> r.value[i].color == reg[i].color
  {
    if IsEnabled(reg, name) then Disable(reg, name) else Enable(reg, name)
  }

  /** Clicking the same swatch twice restores the registry. */
  lemma ToggleTwice(reg: Registry, name: string)
    requires Valid(reg) && name in Names(reg)
    ensures Toggle(reg, name).Success?
    ensures Toggle(Toggle(reg, name).value, name) == Success(reg)
  {
    var once := Toggle(reg, name).value;
    var twice := Toggle(once, name).value;
    var k := Find(reg, name).value;
    forall i | 0 <= i < |reg| && reg[i].name == name
      ensures i == k
    {
    }
    assert once[k].enabled == !reg[k].enabled;
    assert twice[k].enabled == !once[k].enabled;
    assert |twice| == |reg|;
    forall i | 0 <= i < |reg|
      ensures twice[i] == reg[i]
    {
    }
    assert twice == reg;
  }

  /** `notes` lists exactly the enabled keys of `reg`, in key order, and each
      of them once when the keys are distinct. */
  ghost predicate ListsActive(reg: Registry, notes: seq<string>) {
    && (forall x :: x in notes <==> IsEnabled(reg, x))
    && (forall p, q :: 0 <= p < q < |notes| ==> Before(reg, notes[p], notes[q]))
    && (Valid(reg) ==> NoDup(notes))
  }

  /** The loop of `renderActiveNotes`: it collects exactly the enabled keys,
      in key order, each once. */
  function ActiveNotes(reg: Registry): (notes: seq<string>)
    ensures ListsActive(reg, notes)
  {
    if |reg| == 0 then []
    else
      var n := |reg| - 1;
      var prev := ActiveNotes(reg[..n]);
      ActiveNotesStep(reg, prev);
      if reg[n].enabled then prev + [reg[n].name] else prev
  }

  /** Looking at one more key keeps what `ActiveNotes` promises. */
  lemma ActiveNotesStep(reg: Registry, prev: seq<string>)
    requires |reg| > 0
    requires ListsActive(reg[..|reg| - 1], prev)
    ensures ListsActive(reg, if reg[|reg| - 1].enabled then prev + [reg[|reg| - 1].name] else prev)
  {
    var n := |reg| - 1;
    var notes := if reg[n].enabled then prev + [reg[n].name] else prev;
    ActiveNotesStepMembers(reg, prev);
    ActiveNotesStepOrder(reg, prev);
    if Valid(reg) {
      BeforeDistinct(reg, notes);
    }
  }

  lemma ActiveNotesStepMembers(reg: Registry, prev: seq<string>)
    requires |reg| > 0
    requires forall x :: x in prev <==> IsEnabled(reg[..|reg| - 1], x)
    ensures var notes := if reg[|reg| - 1].enabled then prev + [reg[|reg| - 1].name] else prev;
      forall x :: x in notes <==> IsEnabled(reg, x)
  {
    var n := |reg| - 1;
    var init := reg[..n];
    forall x
      ensures IsEnabled(reg, x) <==> IsEnabled(init, x) || (reg[n].enabled && x == reg[n].name)
    {
      if IsEnabled(reg, x) {
        var i :| 0 <= i < |reg| && reg[i].name == x && reg[i].enabled;
        if i < n { assert init[i] == reg[i]; }
      }
      if IsEnabled(init, x) {
        var i :| 0 <= i < |init| && init[i].name == x && init[i].enabled;
        assert reg[i] == init[i];
      }
    }
  }

  lemma ActiveNotesStepOrder(reg: Registry, prev: seq<string>)
    requires |reg| > 0
    requires forall x :: x in prev <==> IsEnabled(reg[..|reg| - 1], x)
    requires forall p, q :: 0 <= p < q < |prev| ==> Before(reg[..|reg| - 1], prev[p], prev[q])
    ensures var notes := if reg[|reg| - 1].enabled then prev + [reg[|reg| - 1].name] else prev;
      forall p, q :: 0 <= p < q < |notes| ==> Before(reg, notes[p], notes[q])
  {
    var n := |reg| - 1;
    var init := reg[..n];
    var notes := if reg[n].enabled then prev + [reg[n].name] else prev;
    forall p, q | 0 <= p < q < |notes|
      ensures Before(reg, notes[p], notes[q])
    {
      if q < |prev| {
        assert notes[p] == prev[p] && notes[q] == prev[q];
        var i, j :| 0 <= i < j < |init| && init[i].name == notes[p] && init[j].name == notes[q];
        assert reg[i] == init[i] && reg[j] == init[j];
      } else {
        assert notes[p] == prev[p] && notes[p] in prev;
        var i :| 0 <= i < |init| && init[i].name == notes[p] && init[i].enabled;
        assert reg[i] == init[i];
      }
    }
  }

  /** In a registry with distinct keys, a list whose elements are pairwise
      registered in order names each key at most once. */
  lemma BeforeDistinct(reg: Registry, notes: seq<string>)
    requires Valid(reg)
    requires forall p, q :: 0 <= p < q < |notes| ==> Before(reg, notes[p], notes[q])
    ensures NoDup(notes)
  {
    forall p, q | 0 <= p < q < |notes|
      ensures notes[p] != notes[q]
    {
      var i, j :| 0 <= i < j < |reg| && reg[i].name == notes[p] && reg[j].name == notes[q];
      assert Names(reg)[i] != Names(reg)[j];
    }
  }

  /** Key `x` is registered before key `y`. */
  ghost predicate Before(reg: Registry, x: string, y: string) {
    exists i, j :: 0 <= i < j < |reg| && reg[i].name == x && reg[j].name == y
  }
}
