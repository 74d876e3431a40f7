/**
 * `Sighting`: one observation of a number of birds of a species. Its fields
 * are set once, by the constructor, and only read afterwards; the species is
 * a reference to a `Species` object.
 */
module SightingModel {
  import opened JavaLang
  import opened SpeciesModel

  /** A Joda `DateTime`, kept only as its instant in milliseconds (time zones are not modelled). */
  datatype DateTime = DateTime(epochMillis: int)

  /**
   * The constructor `Sighting(id, dateTime, description, species, count)`;
   * the destructors are the getters (`getSightingId` is `id`). `id` is the
   * server-side identifier, `None` (Java `null`) for a sighting created on
   * the device.
   */
  datatype Sighting = Sighting(
    id: Option<string>,
    dateTime: DateTime,
    description: string,
    species: Species,
    count: int32)

  /** Longest description shown before an ellipsis is added. */
  const ShortDescriptionLength := 254
  const Ellipsis := "..."

  /** The suffix that pluralises the species name. */
  function PluralSuffix(count: int32): string {
    if count > 1 then "s" else ""
  }

  /**
   * `getCountAndSpeciesText`: `"%d %s"` of the count and the species name,
   * with an "s" appended to the name when the count is above one.
   */
  function CountAndSpeciesText(s: Sighting): (r: string)
    reads s.species
    ensures var k := |DecimalText(s.count as int)|;
      |r| == k + 1 + |s.species.name| + (if s.count > 1 then 1 else 0) && r[k] == ' '
  {
    DecimalText(s.count as int) + " " + (s.species.name + PluralSuffix(s.count))
  }

  /**
   * What the text says: the count in decimal (which reads back as the
   * count), a single space, then the species name, followed by "s" exactly
   * when the count is above one.
   */
  lemma {:induction false} CountAndSpeciesTextMeaning(s: Sighting)
    ensures var r, k := CountAndSpeciesText(s), |DecimalText(s.count as int)|;
      && k < |r| && r[k] == ' '
      && (forall i :: 0 <= i < k ==> r[i] != ' ')
      && r[..k] == DecimalText(s.count as int)
      && ParseDecimal(r[..k]) == Some(s.count as int)
      && r[k + 1..k + 1 + |s.species.name|] == s.species.name
      && (r[k + 1..] == s.species.name <==> s.count <= 1)
      && (r[k + 1..] == s.species.name + "s" <==> s.count > 1)
  {
    var d, name := DecimalText(s.count as int), s.species.name;
    var r, k := CountAndSpeciesText(s), |d|;
    assert r == d + [' '] + (name + PluralSuffix(s.count));
    assert r[..k] == d;
    assert r[k + 1..] == name + PluralSuffix(s.count);
    DecimalTextRoundTrip(s.count as int);
    if s.count > 1 {
      assert |r[k + 1..]| != |name|;
    }
  }

  /**
   * `getShortDescription`: the first 254 characters of the description and,
   * when that prefix has reached 254 characters, an ellipsis after it.
   */
  function ShortDescription(s: Sighting): (r: string)
    ensures |r| <= ShortDescriptionLength + |Ellipsis|
    ensures |s.description| < ShortDescriptionLength ==> r == s.description
    ensures |s.description| >= ShortDescriptionLength ==>
              |r| == ShortDescriptionLength + |Ellipsis| && r[ShortDescriptionLength..] == Ellipsis
    ensures var n := if |s.description| < ShortDescriptionLength then |s.description| else ShortDescriptionLength;
              n <= |r| && r[..n] == s.description[..n]
  {
    var d := s.description;
    var shortDesc := d[..if |d| < ShortDescriptionLength then |d| else ShortDescriptionLength];
    if |shortDesc| >= ShortDescriptionLength then shortDesc + Ellipsis else shortDesc
  }

  /**
   * The description comes back unchanged exactly when it is shorter than 254
   * characters, or when it is already 254 characters followed by "...".
   */
  lemma ShortDescriptionUnchangedIff(s: Sighting)
    ensures var d := s.description;
      ShortDescription(s) == d <==>
        |d| < ShortDescriptionLength
        || (|d| == ShortDescriptionLength + |Ellipsis| && d[ShortDescriptionLength..] == Ellipsis)
  {
    var d := s.description;
    if |d| == ShortDescriptionLength + |Ellipsis| && d[ShortDescriptionLength..] == Ellipsis {
      assert d == d[..ShortDescriptionLength] + d[ShortDescriptionLength..];
    }
  }

  /** Shortening an already short description changes nothing. */
  lemma {:induction false} ShortDescriptionIdempotent(s: Sighting)
    ensures ShortDescription(s.(description := ShortDescription(s))) == ShortDescription(s)
  {
    var d, r := s.description, ShortDescription(s);
    if |d| >= ShortDescriptionLength {
      var r2 := ShortDescription(s.(description := r));
      assert r[..ShortDescriptionLength] == d[..ShortDescriptionLength];
      assert r2 == r[..ShortDescriptionLength] + Ellipsis;
      assert r == d[..ShortDescriptionLength] + Ellipsis;
    }
  }

  /**
   * Each getter returns what was given to the constructor. This holds by
   * construction (a destructor applied to its constructor); it records that
   * the record has no other state.
   */
  lemma GettersReturnConstructorArguments(
    id: Option<string>, dateTime: DateTime, description: string, species: Species, count: int32)
    ensures var s := Sighting(id, dateTime, description, species, count);
      s.id == id && s.dateTime == dateTime && s.description == description
      && s.species == species && s.count == count
  {
  }
}
