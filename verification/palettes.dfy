/**
 * The palette document: a palette is `{id, title, sections}`, a section is
 * `{id, title, colors}`, and a color is a string. Ids are JavaScript numbers
 * compared with `===`; the model uses integers.
 */
module Palettes {
  import Seqs

  /** A value that may be missing: JavaScript's `undefined`/`null`, or a failed parse. */
  datatype Option<T> = None | Some(value: T)

  datatype Section = Section(id: int, title: string, colors: seq<string>)

  /** `sections` is optional: every section and color handler reads it as `palette.sections || []`. */
  datatype Palette = Palette(id: int, title: string, sections: Option<seq<Section>>)

  /** `palette.sections || []`. */
  function SectionsOf(p: Palette): (r: seq<Section>)
    ensures p.sections.Some? ==> r == p.sections.value
    ensures p.sections.None? ==> r == []
  {
    match p.sections
    case Some(ss) => ss
    case None => []
  }

  /** A color is stored in normalised form when it starts with `#`. */
  predicate StartsWithHash(c: string) {
    |c| > 0 && c[0] == '#'
  }

  /** Every color of the section starts with `#`. */
  ghost predicate SectionNormalized(s: Section) {
    forall j :: 0 <= j < |s.colors| ==> StartsWithHash(s.colors[j])
  }

  /** Every color of every section of `p` starts with `#`. */
  ghost predicate ColorsNormalized(p: Palette) {
    forall k :: 0 <= k < |SectionsOf(p)| ==> SectionNormalized(SectionsOf(p)[k])
  }

  /** The id of a section, as a function value. */
  function SectionId(s: Section): int {
    s.id
  }

  /** The id of a palette, as a function value. */
  function PaletteId(p: Palette): int {
    p.id
  }

  /** Section ids are pairwise distinct within `p`. */
  ghost predicate SectionIdsDistinct(p: Palette) {
    Seqs.KeysDistinct(SectionsOf(p), SectionId)
  }

  /** Palette ids are pairwise distinct within the list. */
  ghost predicate PaletteIdsDistinct(ps: seq<Palette>) {
    Seqs.KeysDistinct(ps, PaletteId)
  }

  /** Some palette of the list has id `id`. */
  predicate HasPaletteId(ps: seq<Palette>, id: int) {
    exists k :: 0 <= k < |ps| && ps[k].id == id
  }

  /** Some section of the list has id `id`. */
  predicate HasSectionId(ss: seq<Section>, id: int) {
    exists k :: 0 <= k < |ss| && ss[k].id == id
  }
}
