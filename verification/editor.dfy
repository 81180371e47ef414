/**
 * The card's palette handlers (`src/components/card.jsx`): each builds a new
 * palette from the card's current one, which the card then hands to the list
 * store. View state (which section is expanded or being edited, the colour
 * inputs) is not part of the palette and is not modelled.
 */
module Editor {
  import opened Palettes
  import Seqs

  /** Title given to a freshly added section. */
  const NewSectionTitle: string := "Nueva Sección"

  /** `color.startsWith("#") ? color : "#" + color`. */
  function NormalizeColor(c: string): (r: string)
    ensures StartsWithHash(r)
    ensures |c| <= |r| <= |c| + 1
    ensures r[|r| - |c|..] == c
    ensures r == c <==> StartsWithHash(c)
  {
    if StartsWithHash(c) then c else "#" + c
  }

  /** Normalising twice is normalising once. */
  lemma NormalizeIdempotent(c: string)
    ensures NormalizeColor(NormalizeColor(c)) == NormalizeColor(c)
  {
  }

  /** `updatePaletteTitle`: only the title changes. */
  function UpdatePaletteTitle(p: Palette, title: string): (r: Palette)
    ensures r.title == title
    ensures r.id == p.id && r.sections == p.sections
  {
    p.(title := title)
  }

  /** `addSection`, with the `Date.now()` id supplied by the caller. */
  function AddSection(p: Palette, id: int): (r: Palette)
    ensures r.id == p.id && r.title == p.title && r.sections.Some?
    ensures |SectionsOf(r)| == |SectionsOf(p)| + 1
    ensures SectionsOf(r)[..|SectionsOf(p)|] == SectionsOf(p)
    ensures SectionsOf(r)[|SectionsOf(p)|] == Section(id, NewSectionTitle, [])
  {
    p.(sections := Some(SectionsOf(p) + [Section(id, NewSectionTitle, [])]))
  }

  /** The renaming applied to each section by `updateSectionTitle`. */
  function RenameIfMatches(sid: int, title: string): Section -> Section {
    (s: Section) => if s.id == sid then s.(title := title) else s
  }

  /** `updateSectionTitle`, which `saveEditing` calls with the edited text as is. */
  function UpdateSectionTitle(p: Palette, sid: int, title: string): (r: Palette)
    ensures r.id == p.id && r.title == p.title && r.sections.Some?
    ensures |SectionsOf(r)| == |SectionsOf(p)|
    ensures forall k :: 0 <= k < |SectionsOf(p)| ==>
      SectionsOf(r)[k].id == SectionsOf(p)[k].id && SectionsOf(r)[k].colors == SectionsOf(p)[k].colors
    ensures forall k :: 0 <= k < |SectionsOf(p)| ==>
      SectionsOf(r)[k].title == if SectionsOf(p)[k].id == sid then title else SectionsOf(p)[k].title
  {
    p.(sections := Some(Seqs.Map(SectionsOf(p), RenameIfMatches(sid, title))))
  }

  /** Committing an empty title stores the empty title; nothing reverts to a placeholder. */
  lemma SaveEditingKeepsEmptyTitle(p: Palette, k: nat)
    requires k < |SectionsOf(p)|
    ensures SectionsOf(UpdateSectionTitle(p, SectionsOf(p)[k].id, ""))[k].title == ""
  {
  }

  /** The filter predicate of `deleteSection`. */
  function OtherSection(sid: int): Section -> bool {
    (s: Section) => s.id != sid
  }

  /** `deleteSection`: drops exactly the sections whose id is `sid`. */
  function DeleteSection(p: Palette, sid: int): (r: Palette)
    ensures r.id == p.id && r.title == p.title && r.sections.Some?
    ensures forall k :: 0 <= k < |SectionsOf(r)| ==>
      SectionsOf(r)[k].id != sid && SectionsOf(r)[k] in SectionsOf(p)
    ensures forall k :: 0 <= k < |SectionsOf(p)| && SectionsOf(p)[k].id != sid ==>
      SectionsOf(p)[k] in SectionsOf(r)
    ensures !HasSectionId(SectionsOf(p), sid) ==> SectionsOf(r) == SectionsOf(p)
  {
    p.(sections := Some(Seqs.Filter(SectionsOf(p), OtherSection(sid))))
  }

  /**
   * Deleting from sections `a + b` gives what deleting from `a` and from `b`
   * give, in that order: the surviving sections keep their relative order.
   */
  lemma DeleteSectionKeepsOrder(p: Palette, sid: int, a: seq<Section>, b: seq<Section>)
    requires SectionsOf(p) == a + b
    ensures SectionsOf(DeleteSection(p, sid))
         == SectionsOf(DeleteSection(p.(sections := Some(a)), sid))
          + SectionsOf(DeleteSection(p.(sections := Some(b)), sid))
  {
    Seqs.FilterAppend(a, b, OtherSection(sid));
  }

  /** Every copy of a surviving section is kept, every copy of a matching one goes. */
  lemma DeleteSectionCounts(p: Palette, sid: int, s: Section)
    ensures multiset(SectionsOf(DeleteSection(p, sid)))[s]
         == if s.id == sid then 0 else multiset(SectionsOf(p))[s]
  {
    Seqs.FilterMultiset(SectionsOf(p), OtherSection(sid), s);
  }

  /** The append applied to each section by `addColorToSection`. */
  function AppendIfMatches(sid: int, color: string): Section -> Section {
    (s: Section) => if s.id == sid then s.(colors := s.colors + [color]) else s
  }

  /**
   * `addColorToSection`: `None` when the handler returns early on an empty
   * color (no new palette is produced or synced); otherwise the normalised
   * color is appended to every section whose id is `sid`.
   */
  function AddColor(p: Palette, sid: int, color: string): (r: Option<Palette>)
    ensures r.None? <==> color == ""
    ensures r.Some? ==>
      && r.value.id == p.id && r.value.title == p.title && r.value.sections.Some?
      && |SectionsOf(r.value)| == |SectionsOf(p)|
    ensures r.Some? ==> forall k :: 0 <= k < |SectionsOf(p)| && SectionsOf(p)[k].id != sid ==>
      SectionsOf(r.value)[k] == SectionsOf(p)[k]
    ensures r.Some? ==> forall k :: 0 <= k < |SectionsOf(p)| && SectionsOf(p)[k].id == sid ==>
      && SectionsOf(r.value)[k].id == sid
      && SectionsOf(r.value)[k].title == SectionsOf(p)[k].title
      && SectionsOf(r.value)[k].colors == SectionsOf(p)[k].colors + [NormalizeColor(color)]
  {
    if color == "" then None
    else Some(p.(sections := Some(Seqs.Map(SectionsOf(p), AppendIfMatches(sid, NormalizeColor(color))))))
  }

  /** The removal applied to each section by `removeColorFromSection`. */
  function RemoveAtIfMatches(sid: int, index: int): Section -> Section {
    (s: Section) => if s.id == sid then s.(colors := Seqs.RemoveAt(s.colors, index)) else s
  }

  /**
   * `removeColorFromSection`: in every section whose id is `sid`, the color at
   * position `index` is removed when there is one; other sections are untouched.
   */
  function RemoveColor(p: Palette, sid: int, index: int): (r: Palette)
    ensures r.id == p.id && r.title == p.title && r.sections.Some?
    ensures |SectionsOf(r)| == |SectionsOf(p)|
    ensures forall k :: 0 <= k < |SectionsOf(p)| && SectionsOf(p)[k].id != sid ==>
      SectionsOf(r)[k] == SectionsOf(p)[k]
    ensures forall k :: 0 <= k < |SectionsOf(p)| && SectionsOf(p)[k].id == sid ==>
      && SectionsOf(r)[k].id == sid
      && SectionsOf(r)[k].title == SectionsOf(p)[k].title
      && SectionsOf(r)[k].colors ==
           var c := SectionsOf(p)[k].colors;
           if 0 <= index < |c| then c[..index] + c[index + 1..] else c
  {
    p.(sections := Some(Seqs.Map(SectionsOf(p), RemoveAtIfMatches(sid, index))))
  }

  /** Renaming a palette or a section keeps colors normalised. */
  lemma RenamesKeepColorsNormalized(p: Palette, sid: int, title: string)
    requires ColorsNormalized(p)
    ensures ColorsNormalized(UpdatePaletteTitle(p, title))
    ensures ColorsNormalized(UpdateSectionTitle(p, sid, title))
  {
    var ss := SectionsOf(p);
    var rs := SectionsOf(UpdateSectionTitle(p, sid, title));
    forall k | 0 <= k < |rs|
      ensures SectionNormalized(rs[k])
    {
      assert rs[k].colors == ss[k].colors;
      assert SectionNormalized(ss[k]);
    }
  }

  /** A new section has no colors, so it keeps colors normalised. */
  lemma AddSectionKeepsColorsNormalized(p: Palette, id: int)
    requires ColorsNormalized(p)
    ensures ColorsNormalized(AddSection(p, id))
  {
    var ss := SectionsOf(p);
    var rs := SectionsOf(AddSection(p, id));
    assert forall k :: 0 <= k < |ss| ==> rs[k] == ss[k];
  }

  /** The surviving sections of a delete were normalised before. */
  lemma DeleteSectionKeepsColorsNormalized(p: Palette, sid: int)
    requires ColorsNormalized(p)
    ensures ColorsNormalized(DeleteSection(p, sid))
  {
    var ss := SectionsOf(p);
    var rs := SectionsOf(DeleteSection(p, sid));
    forall k | 0 <= k < |rs|
      ensures SectionNormalized(rs[k])
    {
      var i :| 0 <= i < |ss| && ss[i] == rs[k];
    }
  }

  /** An added color is normalised before it is stored. */
  lemma AddColorKeepsColorsNormalized(p: Palette, sid: int, color: string)
    requires ColorsNormalized(p)
    requires color != ""
    ensures ColorsNormalized(AddColor(p, sid, color).value)
  {
    var ss := SectionsOf(p);
    var rs := SectionsOf(AddColor(p, sid, color).value);
    forall k | 0 <= k < |rs|
      ensures SectionNormalized(rs[k])
    {
      assert SectionNormalized(ss[k]);
      if ss[k].id == sid {
        var c := ss[k].colors + [NormalizeColor(color)];
        assert rs[k].colors == c;
        assert forall j :: 0 <= j < |ss[k].colors| ==> c[j] == ss[k].colors[j];
      }
    }
  }

  /** Removing a color keeps the remaining ones, which were normalised. */
  lemma RemoveColorKeepsColorsNormalized(p: Palette, sid: int, index: int)
    requires ColorsNormalized(p)
    ensures ColorsNormalized(RemoveColor(p, sid, index))
  {
    var ss := SectionsOf(p);
    var rs := SectionsOf(RemoveColor(p, sid, index));
    forall k | 0 <= k < |rs|
      ensures SectionNormalized(rs[k])
    {
      assert SectionNormalized(ss[k]);
      var c := ss[k].colors;
      if ss[k].id == sid && 0 <= index < |c| {
        forall j | 0 <= j < |rs[k].colors|
          ensures StartsWithHash(rs[k].colors[j])
        {
          assert rs[k].colors[j] == if j < index then c[j] else c[j + 1];
        }
      }
    }
  }

  /** Edits that keep every section's id in place keep the section ids distinct. */
  lemma SameIdsKeepDistinct(p: Palette, r: Palette)
    requires SectionIdsDistinct(p)
    requires |SectionsOf(r)| == |SectionsOf(p)|
    requires forall k :: 0 <= k < |SectionsOf(p)| ==> SectionsOf(r)[k].id == SectionsOf(p)[k].id
    ensures SectionIdsDistinct(r)
  {
  }

  /** Renaming and color edits leave every section id where it was. */
  lemma EditsKeepSectionIdsDistinct(p: Palette, sid: int, title: string, color: string, index: int)
    requires SectionIdsDistinct(p)
    ensures SectionIdsDistinct(UpdatePaletteTitle(p, title))
    ensures SectionIdsDistinct(UpdateSectionTitle(p, sid, title))
    ensures color != "" ==> SectionIdsDistinct(AddColor(p, sid, color).value)
    ensures SectionIdsDistinct(RemoveColor(p, sid, index))
  {
    SameIdsKeepDistinct(p, UpdateSectionTitle(p, sid, title));
    if color != "" {
      SameIdsKeepDistinct(p, AddColor(p, sid, color).value);
    }
    SameIdsKeepDistinct(p, RemoveColor(p, sid, index));
  }

  /** Deleting sections never makes two of the rest share an id. */
  lemma DeleteSectionKeepsIdsDistinct(p: Palette, sid: int)
    requires SectionIdsDistinct(p)
    ensures SectionIdsDistinct(DeleteSection(p, sid))
  {
    Seqs.FilterKeepsKeysDistinct(SectionsOf(p), OtherSection(sid), SectionId);
  }

  /** A section added under an id no section has keeps the section ids distinct. */
  lemma AddSectionFreshIdKeepsDistinct(p: Palette, id: int)
    requires SectionIdsDistinct(p)
    requires !HasSectionId(SectionsOf(p), id)
    ensures SectionIdsDistinct(AddSection(p, id))
  {
    var ss := SectionsOf(p);
    var rs := SectionsOf(AddSection(p, id));
    assert forall k :: 0 <= k < |ss| ==> rs[k] == ss[k];
  }
}
