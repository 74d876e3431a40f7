/**
 * `Species`: a bird species known by its name. The name can be changed in
 * place, and equality and the hash code are defined by the name alone.
 */
module SpeciesModel {
  import opened JavaLang

  class Species {
    var name: string

    constructor (name: string)
      ensures this.name == name
    {
      this.name := name;
    }

    /** `getName`: the name given to the constructor or to the latest `setName`. */
    function GetName(): (n: string)
      reads this
      ensures n == name
    {
      name
    }

    /** `setName`: from now on the species is known (and compared) by `n`. */
    method SetName(n: string)
      modifies this
      ensures GetName() == n
      ensures HashCode() == StringHashCode(n)
      ensures forall other: Species {:trigger other.name} :: other != this ==>
                (Equals(other) <==> other.name == n) && (other.Equals(this) <==> other.name == n)
    {
      name := n;
    }

    /** `hashCode`: the hash code of the name, i.e. its polynomial in base 31 modulo 2^32. */
    function HashCode(): (h: int32)
      reads this
      ensures (h as int - HashPolynomial(name)) % TwoTo32 == 0
    {
      StringHashCode(name)
    }

    /**
     * `equals(Object)`: false for `null` and for anything that is not a
     * `Species`, otherwise case-sensitive equality of the two names.
     */
    function Equals(obj: object?): (b: bool)
      reads this, obj
      ensures b ==> obj != null && obj is Species
      ensures obj == this ==> b
    {
      obj is Species && name == (obj as Species).name
    }
  }

  /** Two species are equal exactly when their names are the same string. */
  lemma EqualsIsNameEquality(a: Species, b: Species)
    ensures a.Equals(b) <==> a.GetName() == b.GetName()
  {
  }

  /** Comparing a species with `null` or with an object of another class gives false. */
  lemma NotEqualToOtherObjects(a: Species, obj: object?)
    requires !(obj is Species)
    ensures !a.Equals(obj)
  {
  }

  /** `equals` is an equivalence relation on species. */
  lemma EqualsIsEquivalence(a: Species, b: Species, c: Species)
    ensures a.Equals(a)
    ensures a.Equals(b) <==> b.Equals(a)
    ensures a.Equals(b) && b.Equals(c) ==> a.Equals(c)
  {
  }

  /** Equal species have equal hash codes, as `Object.hashCode` requires. */
  lemma EqualsAgreesWithHashCode(a: Species, b: Species)
    requires a.Equals(b)
    ensures a.HashCode() == b.HashCode()
  {
  }

  /** Names are compared case-sensitively: "Mallard" and "mallard" are different species. */
  lemma EqualsIsCaseSensitive(a: Species, b: Species)
    requires a.GetName() == "Mallard" && b.GetName() == "mallard"
    ensures !a.Equals(b)
  {
    assert a.name[0] != b.name[0];
  }
}
