/** Venue normalisation: raw venue names are mapped onto the names the
    geographical table uses, through a fixed lookup table with identity fallback. */
module Venues {
  import opened Tables

  /** The fixed lookup table of raw venue name to canonical venue name. */
  const VenueMapping: map<string, string> := map[
    "Rajiv Gandhi International Stadium, Uppal" := "Rajiv Gandhi International Stadium",
    "M. Chinnaswamy Stadium" := "M Chinnaswamy Stadium",
    "Holkar Cricket Stadium" := "Holkar Cricket Stadium",
    "Maharashtra Cricket Association Stadium" := "Maharashtra Cricket Association Stadium",
    "Wankhede Stadium" := "Wankhede Stadium",
    "Feroz Shah Kotla Ground" := "Feroz Shah Kotla Ground",
    "Eden Gardens" := "Eden Gardens",
    "Punjab Cricket Association Stadium, Mohali" := "IS Bindra Stadium",
    "Feroz Shah Kotla" := "Feroz Shah Kotla Ground",
    "M. A. Chidambaram Stadium" := "M. A. Chidambaram Stadium",
    "Sardar Patel Stadium, Motera" := "Sardar Patel Stadium, Motera",
    "Himachal Pradesh Cricket Association Stadium" := "Himachal Pradesh Cricket Association Stadium",
    "Subrata Roy Sahara Stadium" := "Maharashtra Cricket Association Stadium",
    "JSCA International Stadium Complex" := "JSCA International Stadium Complex",
    "Barabati Stadium" := "Barabati Stadium",
    "Saurashtra Cricket Association Stadium" := "Saurashtra Cricket Association Stadium",
    "Shaheed Veer Narayan Singh International Stadium" := "Shaheed Veer Narayan Singh International Stadium",
    "Dr. Y.S. Rajasekhara Reddy ACA-VDCA Cricket Stadium" := "Dr. Y.S. Rajasekhara Reddy ACA-VDCA Cricket Stadium",
    "ACA-VDCA Stadium" := "Dr. Y.S. Rajasekhara Reddy ACA-VDCA Cricket Stadium",
    "M. Chinnaswamy Stadium, Bengaluru" := "M Chinnaswamy Stadium",
    "Wankhede Stadium, Mumbai" := "Wankhede Stadium",
    "Sheikh Zayed Stadium" := "Sheikh Zayed Cricket Stadium"
  ]

  /** `Series.map(venue_mapping).fillna(original)` on one cell: a string key of
      the table is replaced by its value; anything else (another string, a
      number, NaN) maps to NaN and is then filled back with the original. */
  function NormalizeCell(c: Cell): Cell {
    match c
    case Some(Str(s)) => if s in VenueMapping then Some(Str(VenueMapping[s])) else c
    case _ => c
  }

  /** Every canonical name is either no key of the table or a key mapping to itself. */
  lemma TargetsAreFixed()
    ensures forall v | v in VenueMapping.Values :: v !in VenueMapping || VenueMapping[v] == v
  {
    MappedNamesAreFixed();
    forall v | v in VenueMapping.Values ensures v !in VenueMapping || VenueMapping[v] == v {
      var k :| k in VenueMapping && VenueMapping[k] == v;
    }
  }

  /** The same, key by key: the name a key maps to is no key, or maps to itself. */
  lemma MappedNamesAreFixed()
    ensures forall k | k in VenueMapping ::
      VenueMapping[k] !in VenueMapping || VenueMapping[VenueMapping[k]] == VenueMapping[k]
  {
  }

  /** Exact-match lookup: a key of the table yields the table's value; every
      other string comes back unchanged; non-strings and NaN are untouched. */
  lemma NormalizeCellCases(c: Cell)
    ensures c.Some? && c.value.Str? && c.value.s in VenueMapping ==> NormalizeCell(c) == Some(Str(VenueMapping[c.value.s]))
    ensures !(c.Some? && c.value.Str? && c.value.s in VenueMapping) ==> NormalizeCell(c) == c
    ensures NormalizeCell(c).None? <==> c.None?
  {
  }

  /** The result is a canonical name whenever the input was a key of the table. */
  lemma NormalizeCellCanonical(c: Cell)
    ensures c.Some? && c.value.Str? && c.value.s in VenueMapping ==>
      NormalizeCell(c).Some? && NormalizeCell(c).value.Str? && NormalizeCell(c).value.s in VenueMapping.Values
  {
  }

  /** Normalising twice is normalising once. */
  lemma NormalizeCellIdempotent(c: Cell)
    ensures NormalizeCell(NormalizeCell(c)) == NormalizeCell(c)
  {
    if c.Some? && c.value.Str? && c.value.s in VenueMapping {
      TargetsAreFixed();
      assert VenueMapping[c.value.s] in VenueMapping.Values;
    }
  }

  /** The whole venue column, normalised cell by cell. */
  function NormalizeVenues(cells: seq<Cell>): (r: seq<Cell>)
    ensures |r| == |cells|
    ensures forall i | 0 <= i < |cells| :: r[i] == NormalizeCell(cells[i])
  {
    seq(|cells|, i requires 0 <= i < |cells| => NormalizeCell(cells[i]))
  }

  /** Normalising the column twice is normalising it once. */
  lemma NormalizeVenuesIdempotent(cells: seq<Cell>)
    ensures NormalizeVenues(NormalizeVenues(cells)) == NormalizeVenues(cells)
  {
    forall i | 0 <= i < |cells| ensures NormalizeVenues(NormalizeVenues(cells))[i] == NormalizeVenues(cells)[i] {
      NormalizeCellIdempotent(cells[i]);
    }
  }
}
