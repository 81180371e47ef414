/**
 * How the card's edits reach the list store: `setAndSync` hands the edited
 * palette to the page's `updatePalette`, and the card's delete button calls
 * `deletePalette` with the card's palette id once confirmed. Also the
 * end-to-end sequences of handler calls a user can trigger.
 */
module App {
  import opened Palettes
  import opened Store
  import Editor
  import Decimal

  /**
   * `setAndSync`: an edited palette goes to `updatePalette`; a handler that
   * returned early (an empty color) produces nothing and nothing is saved.
   */
  function SyncEdit(s: Store, edited: Option<Palette>, codec: Codec): (r: Store)
    ensures edited.None? || s.state.JOther? ==> r == s
    ensures edited.Some? && s.state.JArray? ==>
      && r.state.JArray? && |r.state.items| == |s.state.items|
      && r.stored == Some(codec.encode(r.state.items))
      && forall k :: 0 <= k < |s.state.items| ==>
           r.state.items[k] == if s.state.items[k].id == edited.value.id then edited.value else s.state.items[k]
  {
    match edited
    case None => s
    case Some(p) => UpdatePalette(s, p, codec)
  }

  /** The card's delete button: after confirmation, its palette's id is deleted from the list. */
  function RemovePalette(s: Store, p: Palette, confirmed: bool, codec: Codec): (r: Store)
    ensures !confirmed || s.state.JOther? ==> r == s
    ensures confirmed && s.state.JArray? ==>
      var ps := s.state.items;
      && r.state.JArray? && r.stored == Some(codec.encode(r.state.items))
      && !HasPaletteId(r.state.items, p.id)
      && (forall k :: 0 <= k < |r.state.items| ==> r.state.items[k] in ps)
      && (forall k :: 0 <= k < |ps| && ps[k].id != p.id ==> ps[k] in r.state.items)
      && (forall q :: multiset(r.state.items)[q] == if q.id == p.id then 0 else multiset(ps)[q])
    ensures confirmed ==> r == DeletePalette(s, p.id, codec)
  {
    if confirmed then
      if s.state.JArray? then
        DeletePaletteMultiset(s, p.id, codec);
        DeletePalette(s, p.id, codec)
      else
        DeletePalette(s, p.id, codec)
    else
      s
  }

  /**
   * With distinct palette ids, a card edit of entry `k` that keeps the
   * palette's id (every editor transform does) replaces entry `k` alone.
   */
  lemma CardEditReplacesItsEntry(s: Store, k: nat, edited: Option<Palette>, codec: Codec)
    requires s.state.JArray? && k < |s.state.items|
    requires PaletteIdsDistinct(s.state.items)
    requires edited.Some? ==> edited.value.id == s.state.items[k].id
    ensures SyncEdit(s, edited, codec).state
         == if edited.Some? then JArray(s.state.items[k := edited.value]) else s.state
  {
    if edited.Some? {
      UpdateReplacesOneEntry(s, k, edited.value, codec);
    }
  }

  /** Adding an empty color changes neither the state nor storage. */
  lemma EmptyColorChangesNothing(s: Store, p: Palette, sid: int, codec: Codec)
    ensures SyncEdit(s, Editor.AddColor(p, sid, ""), codec) == s
  {
  }

  /**
   * When two entries share an id, an edit made in the card of one is also
   * written over the other: nothing in the code keeps palette ids distinct.
   */
  lemma SharedIdEditOverwritesTwin(s: Store, i: nat, j: nat, p: Palette, codec: Codec)
    requires s.state.JArray? && i < |s.state.items| && j < |s.state.items|
    requires s.state.items[i].id == s.state.items[j].id == p.id
    ensures SyncEdit(s, Some(p), codec).state.items[i] == p
    ensures SyncEdit(s, Some(p), codec).state.items[j] == p
  {
  }

  /** A deleted id does not come back when a palette is then added under another id. */
  lemma DeletedIdStaysGone(s: Store, x: int, now: int, codec: Codec)
    requires s.state.JArray?
    requires now != x
    ensures !HasPaletteId(AddPalette(DeletePalette(s, x, codec), now, codec).state.items, x)
  {
  }

  /**
   * Starting from the empty list, three "add palette" clicks give titles
   * "Paleta 1", "Paleta 2", "Paleta 3" with the clock readings as ids;
   * "delete all" then leaves an empty list that a reload keeps, rather than
   * bringing back the defaults.
   */
  lemma AddThreeClearReload(stored: Option<string>, codec: Codec, n1: int, n2: int, n3: int, t1: int, t2: int)
    requires Lawful(codec)
    ensures var s3 := AddPalette(AddPalette(AddPalette(Store(JArray([]), stored), n1, codec), n2, codec), n3, codec);
      && s3.state == JArray([
           Palette(n1, "Paleta 1", Some([])),
           Palette(n2, "Paleta 2", Some([])),
           Palette(n3, "Paleta 3", Some([]))])
      && (n1 != n2 && n2 != n3 && n1 != n3 ==> PaletteIdsDistinct(s3.state.items))
      && Load(DeleteAll(s3, true, codec).stored, codec, t1, t2).state == JArray([])
  {
    var s1 := AddPalette(Store(JArray([]), stored), n1, codec);
    var s2 := AddPalette(s1, n2, codec);
    var s3 := AddPalette(s2, n3, codec);
    assert NewPaletteTitle(1) == "Paleta 1" by { assert Decimal.NatToString(1) == "1"; }
    assert NewPaletteTitle(2) == "Paleta 2" by { assert Decimal.NatToString(2) == "2"; }
    assert NewPaletteTitle(3) == "Paleta 3" by { assert Decimal.NatToString(3) == "3"; }
    assert s1.state.items == [Palette(n1, "Paleta 1", Some([]))];
    assert s2.state.items == s1.state.items + [Palette(n2, "Paleta 2", Some([]))];
    assert s3.state.items == s2.state.items + [Palette(n3, "Paleta 3", Some([]))];
    ReloadRestoresState(DeleteAll(s3, true, codec), codec, t1, t2);
  }
}
