/**
 * The palette list store of the home page (`src/app/page.jsx`): the in-memory
 * list and the string stored under the `"palettes"` key of local storage.
 * Every handler computes a new list and writes it through `Save`.
 *
 * `JSON.stringify` and `JSON.parse` are not modelled; they are a `Codec`
 * passed in by the caller. `Date.now()` readings are parameters.
 */
module Store {
  import opened Palettes
  import Seqs
  import Decimal

  /**
   * A parsed JSON value, as far as the handlers tell values apart: an array
   * (of palettes) or anything else.
   */
  datatype Json = JArray(items: seq<Palette>) | JOther

  /** `JSON.stringify` on palette lists and `JSON.parse` (None when it throws). */
  datatype Codec = Codec(encode: seq<Palette> -> string, decode: string -> Option<Json>)

  /** What JSON promises: a serialised list is never empty text and parses back to the list. */
  ghost predicate Lawful(codec: Codec) {
    forall ps :: codec.encode(ps) != "" && codec.decode(codec.encode(ps)) == Some(JArray(ps))
  }

  /** The component state `palettes` and the stored string (None when the key is absent). */
  datatype Store = Store(state: Json, stored: Option<string>)

  /** The stored string is present, non-empty, and parses to exactly the in-memory state. */
  ghost predicate Synced(s: Store, codec: Codec) {
    s.stored.Some? && s.stored.value != "" && codec.decode(s.stored.value) == Some(s.state)
  }

  /** `savePalettes`: the in-memory list and the stored value both become `ps`. */
  function Save(ps: seq<Palette>, codec: Codec): (r: Store)
    ensures r.state == JArray(ps)
    ensures r.stored == Some(codec.encode(ps))
    ensures Lawful(codec) ==> Synced(r, codec)
  {
    Store(JArray(ps), Some(codec.encode(ps)))
  }

  const Nature: seq<Section> := [
    Section(1, "Fondos", ["#45C4B0", "#9AEBA3", "#13678A", "#DAFDBA", "#012030"]),
    Section(2, "Header", ["#012030", "#13678A"])
  ]

  const Sunset: seq<Section> := [
    Section(11, "Primarios", ["#FFB347", "#FFCC33", "#FF7E5F", "#FEB47B"])
  ]

  /**
   * The two example palettes written when storage holds nothing. `t1` and
   * `t2` are the two `Date.now()` readings, taken in that order.
   */
  function DefaultPalettes(t1: int, t2: int): (r: seq<Palette>)
    ensures |r| == 2 && r[0].id == t1 && r[1].id == t2 + 1
    ensures t1 <= t2 ==> PaletteIdsDistinct(r)
    ensures forall k :: 0 <= k < |r| ==> ColorsNormalized(r[k]) && SectionIdsDistinct(r[k])
  {
    var r := [
      Palette(t1, "Paleta 1 - Naturaleza", Some(Nature)),
      Palette(t2 + 1, "Paleta 2 - Atardecer", Some(Sunset))
    ];
    assert SectionNormalized(Nature[0]) && SectionNormalized(Nature[1]) && SectionNormalized(Sunset[0]);
    r
  }

  /**
   * The startup effect. A stored string that is present and non-empty is
   * parsed and becomes the state as is, or the empty list when it does not
   * parse, and storage is left alone; otherwise the defaults become the state
   * and are written to storage.
   */
  function Load(raw: Option<string>, codec: Codec, t1: int, t2: int): (r: Store)
    ensures raw.Some? && raw.value != "" ==> r.stored == raw
    ensures raw.Some? && raw.value != "" && codec.decode(raw.value).Some? ==> r.state == codec.decode(raw.value).value
    ensures raw.Some? && raw.value != "" && codec.decode(raw.value).None? ==> r.state == JArray([])
    ensures raw.None? || raw.value == "" ==>
      r.state == JArray(DefaultPalettes(t1, t2)) && r.stored == Some(codec.encode(DefaultPalettes(t1, t2)))
  {
    if raw.Some? && raw.value != "" then
      match codec.decode(raw.value)
      case Some(parsed) => Store(parsed, raw)
      case None => Store(JArray([]), raw)
    else
      Save(DefaultPalettes(t1, t2), codec)
  }

  /** Reloading a synced store gives back its state; storage is not rewritten. */
  lemma ReloadRestoresState(s: Store, codec: Codec, t1: int, t2: int)
    requires Synced(s, codec)
    ensures Load(s.stored, codec, t1, t2) == s
  {
  }

  /**
   * Startup leaves the store synced, except when the stored string does not
   * parse: then the state is the empty list while storage keeps the string.
   */
  lemma LoadSynced(raw: Option<string>, codec: Codec, t1: int, t2: int)
    requires Lawful(codec)
    ensures var r := Load(raw, codec, t1, t2);
      Synced(r, codec) <==> !(raw.Some? && raw.value != "" && codec.decode(raw.value).None?)
  {
  }

  /**
   * A stored string that parses to something other than an array becomes the
   * state and stays in storage, so every reload starts from the same
   * non-array state again.
   */
  lemma NonArrayStartupRecurs(raw: string, codec: Codec, t1: int, t2: int, u1: int, u2: int)
    requires raw != "" && codec.decode(raw) == Some(JOther)
    ensures Load(Some(raw), codec, t1, t2) == Store(JOther, Some(raw))
    ensures Load(Load(Some(raw), codec, t1, t2).stored, codec, u1, u2) == Store(JOther, Some(raw))
  {
  }

  /** The title `Paleta ${n}`. */
  function NewPaletteTitle(n: nat): (r: string)
    ensures |r| > 7 && r[..7] == "Paleta "
    ensures forall k :: 7 <= k < |r| ==> Decimal.IsDigit(r[k])
    ensures r[7] == '0' ==> n == 0
    ensures Decimal.ParseDecimal(r[7..]) == n
  {
    var digits := Decimal.NatToString(n);
    Decimal.ParseRendered(n);
    assert ("Paleta " + digits)[7..] == digits;
    "Paleta " + digits
  }

  /** Lists of different lengths get different default titles. */
  lemma NewPaletteTitleInjective(m: nat, n: nat)
    requires m != n
    ensures NewPaletteTitle(m) != NewPaletteTitle(n)
  {
  }

  /**
   * `addPalette`: appends `{id: now, title: "Paleta <length + 1>", sections: []}`.
   * A non-array state never reaches this handler in the program (the page's
   * render fails on it first); the model leaves such a state unchanged.
   */
  function AddPalette(s: Store, now: int, codec: Codec): (r: Store)
    ensures s.state.JOther? ==> r == s
    ensures s.state.JArray? ==>
      var ps := s.state.items;
      && r.state.JArray? && r.stored == Some(codec.encode(r.state.items))
      && |r.state.items| == |ps| + 1
      && r.state.items[..|ps|] == ps
      && r.state.items[|ps|] == Palette(now, NewPaletteTitle(|ps| + 1), Some([]))
  {
    match s.state
    case JOther => s
    case JArray(ps) => Save(ps + [Palette(now, NewPaletteTitle(|ps| + 1), Some([]))], codec)
  }

  /** The replacement `updatePalette` maps over the list. */
  function ReplaceIfSameId(p: Palette): Palette -> Palette {
    (q: Palette) => if q.id == p.id then p else q
  }

  /**
   * `updatePalette`: every entry whose id is `p.id` becomes `p`. A non-array
   * state never reaches this handler in the program; the model leaves it unchanged.
   */
  function UpdatePalette(s: Store, p: Palette, codec: Codec): (r: Store)
    ensures s.state.JOther? ==> r == s
    ensures s.state.JArray? ==>
      var ps := s.state.items;
      && r.state.JArray? && r.stored == Some(codec.encode(r.state.items))
      && |r.state.items| == |ps|
      && (forall k :: 0 <= k < |ps| && ps[k].id == p.id ==> r.state.items[k] == p)
      && (forall k :: 0 <= k < |ps| && ps[k].id != p.id ==> r.state.items[k] == ps[k])
      && (!HasPaletteId(ps, p.id) ==> r.state.items == ps)
  {
    match s.state
    case JOther => s
    case JArray(ps) =>
      var qs := Seqs.Map(ps, ReplaceIfSameId(p));
      assert !HasPaletteId(ps, p.id) ==> qs == ps;
      Save(qs, codec)
  }

  /** With distinct ids, updating with a palette that keeps entry `k`'s id replaces entry `k` alone. */
  lemma UpdateReplacesOneEntry(s: Store, k: nat, p: Palette, codec: Codec)
    requires s.state.JArray? && k < |s.state.items|
    requires PaletteIdsDistinct(s.state.items)
    requires p.id == s.state.items[k].id
    ensures UpdatePalette(s, p, codec).state == JArray(s.state.items[k := p])
    ensures PaletteIdsDistinct(UpdatePalette(s, p, codec).state.items)
  {
  }

  /** The filter predicate of `deletePalette`. */
  function OtherPalette(id: int): Palette -> bool {
    (q: Palette) => q.id != id
  }

  /**
   * `deletePalette`: drops exactly the entries whose id is `id`. A non-array
   * state never reaches this handler in the program; the model leaves it unchanged.
   */
  function DeletePalette(s: Store, id: int, codec: Codec): (r: Store)
    ensures s.state.JOther? ==> r == s
    ensures s.state.JArray? ==>
      var ps := s.state.items;
      && r.state.JArray? && r.stored == Some(codec.encode(r.state.items))
      && !HasPaletteId(r.state.items, id)
      && (forall k :: 0 <= k < |r.state.items| ==> r.state.items[k] in ps)
      && (forall k :: 0 <= k < |ps| && ps[k].id != id ==> ps[k] in r.state.items)
      && (!HasPaletteId(ps, id) ==> r.state.items == ps)
  {
    match s.state
    case JOther => s
    case JArray(ps) => Save(Seqs.Filter(ps, OtherPalette(id)), codec)
  }

  /** The entries that survive a delete keep their relative order. */
  lemma DeletePaletteKeepsOrder(a: seq<Palette>, b: seq<Palette>, id: int, codec: Codec)
    ensures DeletePalette(Store(JArray(a + b), None), id, codec).state.items
         == DeletePalette(Store(JArray(a), None), id, codec).state.items
          + DeletePalette(Store(JArray(b), None), id, codec).state.items
  {
    Seqs.FilterAppend(a, b, OtherPalette(id));
  }

  /** Every copy of a surviving entry is kept; every copy of a deleted one goes. */
  lemma DeletePaletteCounts(ps: seq<Palette>, id: int, q: Palette, codec: Codec)
    ensures multiset(DeletePalette(Store(JArray(ps), None), id, codec).state.items)[q]
         == if q.id == id then 0 else multiset(ps)[q]
  {
    Seqs.FilterMultiset(ps, OtherPalette(id), q);
  }

  /** The multiplicity of every palette after a delete, for the whole list at once. */
  lemma DeletePaletteMultiset(s: Store, id: int, codec: Codec)
    requires s.state.JArray?
    ensures forall q :: multiset(DeletePalette(s, id, codec).state.items)[q]
                     == if q.id == id then 0 else multiset(s.state.items)[q]
  {
    forall q
      ensures multiset(DeletePalette(s, id, codec).state.items)[q]
           == if q.id == id then 0 else multiset(s.state.items)[q]
    {
      Seqs.FilterMultiset(s.state.items, OtherPalette(id), q);
    }
  }

  /** Deleting never makes two of the remaining palettes share an id. */
  lemma DeletePaletteKeepsIdsDistinct(s: Store, id: int, codec: Codec)
    requires s.state.JArray? && PaletteIdsDistinct(s.state.items)
    ensures PaletteIdsDistinct(DeletePalette(s, id, codec).state.items)
  {
    Seqs.FilterKeepsKeysDistinct(s.state.items, OtherPalette(id), PaletteId);
  }

  /** The "delete all" button: once confirmed, both the state and storage hold the empty list. */
  function DeleteAll(s: Store, confirmed: bool, codec: Codec): (r: Store)
    ensures confirmed ==> r.state == JArray([]) && r.stored == Some(codec.encode([]))
    ensures !confirmed ==> r == s
  {
    if confirmed then Save([], codec) else s
  }

  /** What the import file input delivered: nothing, a file whose text could not be read, or its text. */
  datatype FilePick = NoFile | Unreadable | Contents(text: string)

  /** How an import ended: the three early exits and the one that saves. */
  datatype ImportOutcome = NoFileChosen | ReadFailed | NotAnArray | Imported

  datatype ImportResult = ImportResult(store: Store, outcome: ImportOutcome)

  /**
   * `importJSON`: a parsed array replaces the list wholesale and is saved;
   * a missing file, a read or parse failure, and a non-array leave the store
   * as it was.
   */
  function Import(s: Store, file: FilePick, codec: Codec): (r: ImportResult)
    ensures r.outcome.Imported? <==>
      file.Contents? && codec.decode(file.text).Some? && codec.decode(file.text).value.JArray?
    ensures r.outcome.Imported? ==>
      r.store.state == codec.decode(file.text).value
      && r.store.stored == Some(codec.encode(codec.decode(file.text).value.items))
    ensures r.outcome.NotAnArray? <==> file.Contents? && codec.decode(file.text) == Some(JOther)
    ensures r.outcome.ReadFailed? <==> file.Unreadable? || (file.Contents? && codec.decode(file.text).None?)
    ensures !r.outcome.Imported? ==> r.store == s
  {
    match file
    case NoFile => ImportResult(s, NoFileChosen)
    case Unreadable => ImportResult(s, ReadFailed)
    case Contents(text) =>
      match codec.decode(text)
      case None => ImportResult(s, ReadFailed)
      case Some(JOther) => ImportResult(s, NotAnArray)
      case Some(JArray(ps)) => ImportResult(Save(ps, codec), Imported)
  }

  /** Every handler keeps a synced store synced when the codec keeps JSON's promise. */
  lemma HandlersKeepSynced(s: Store, codec: Codec, now: int, p: Palette, id: int, confirmed: bool, file: FilePick)
    requires Lawful(codec) && Synced(s, codec)
    ensures Synced(AddPalette(s, now, codec), codec)
    ensures Synced(UpdatePalette(s, p, codec), codec)
    ensures Synced(DeletePalette(s, id, codec), codec)
    ensures Synced(DeleteAll(s, confirmed, codec), codec)
    ensures Synced(Import(s, file, codec).store, codec)
  {
  }
}
