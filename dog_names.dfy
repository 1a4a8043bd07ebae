/**
 * The dog-licence name filter: a licence row survives when its AnimalName is
 * present, is not one of eight placeholder tokens, and contains no character
 * outside `[a-zA-Z-]`.
 */
module DogNames {
  import opened Wrappers

  /** One row of the dog-licence table; the name cell may be empty (null). */
  datatype LicenceRow = LicenceRow(animalBirthYear: int, animalName: Option<string>)

  /** A licence row that survived the filter: its name is known to be present. */
  datatype Licence = Licence(birthYear: int, name: string)

  /** Placeholder names removed by exact, case-sensitive comparison. */
  const ListToRemove: seq<string> :=
    ["UNKNOWN", "NAME NOT PROVIDED", "NONE", "A", ".", "NAME", "NOT", "UNKNOWED"]

  /** A character of the class `[a-zA-Z\-]`. */
  predicate IsNameChar(c: char)
  {
    'a' <= c <= 'z' || 'A' <= c <= 'Z' || c == '-'
  }

  /** A regular-expression search for `[^a-zA-Z\-]`: some character is outside the class. */
  predicate ContainsBadChar(s: string)
  {
    s != [] && (!IsNameChar(s[0]) || ContainsBadChar(s[1..]))
  }

  /** `AnimalName.isin(ListToRemove)`: a null cell is not in the list. */
  predicate IsIn(name: Option<string>)
  {
    name.Some? && name.value in ListToRemove
  }

  /** `AnimalName.str.contains(...)` with `na=False`: a null cell does not match. */
  predicate StrContainsBad(name: Option<string>)
  {
    match name
    case None => false
    case Some(s) => ContainsBadChar(s)
  }

  /** The row mask: `~isin(...) & notna() & ~str.contains(...)`. */
  predicate Keep(name: Option<string>)
  {
    !IsIn(name) && name.Some? && !StrContainsBad(name)
  }

  /** The invariant of a surviving name. */
  predicate ValidName(s: string)
  {
    s !in ListToRemove && forall i :: 0 <= i < |s| ==> IsNameChar(s[i])
  }

  lemma {:induction false} ContainsBadCharIff(s: string)
    ensures ContainsBadChar(s) <==> exists i :: 0 <= i < |s| && !IsNameChar(s[i])
  {
    if s != [] {
      ContainsBadCharIff(s[1..]);
      if !IsNameChar(s[0]) {
        assert !IsNameChar(s[0]);
      } else if exists i :: 0 <= i < |s| && !IsNameChar(s[i]) {
        var i :| 0 <= i < |s| && !IsNameChar(s[i]);
        assert !IsNameChar(s[1..][i - 1]);
      }
      if exists i :: 0 <= i < |s[1..]| && !IsNameChar(s[1..][i]) {
        var i :| 0 <= i < |s[1..]| && !IsNameChar(s[1..][i]);
        assert !IsNameChar(s[i + 1]);
      }
    }
  }

  /** A row survives iff its name is present, not a placeholder, and made of letters and hyphens only. */
  lemma KeepIff(name: Option<string>)
    ensures Keep(name) <==> name.Some? && ValidName(name.value)
  {
    if name.Some? {
      ContainsBadCharIff(name.value);
    }
  }

  /** Because the test is "contains a bad character", an empty name survives. */
  lemma EmptyNameKept()
    ensures Keep(Some(""))
  {
    KeepIff(Some(""));
  }

  /** A name differing from a placeholder only in case survives. */
  lemma CaseSensitive()
    ensures Keep(Some("Unknown")) && !Keep(Some("UNKNOWN"))
  {
    KeepIff(Some("Unknown"));
    assert "Unknown" != "UNKNOWN" by { assert "Unknown"[1] != "UNKNOWN"[1]; }
  }

  /** `dogs_filtered`: the rows of the mask, in order, with their names. */
  function FilterDogs(rows: seq<LicenceRow>): (kept: seq<Licence>)
    ensures |kept| <= |rows|
    ensures forall k :: 0 <= k < |kept| ==> ValidName(kept[k].name)
  {
    if rows == [] then []
    else
      KeepIff(rows[0].animalName);
      (if Keep(rows[0].animalName) then [Licence(rows[0].animalBirthYear, rows[0].animalName.value)] else [])
      + FilterDogs(rows[1..])
  }

  /** Each surviving licence occurs in the filtered table exactly as often as its row occurs in the input; rejected names never occur. */
  lemma {:induction false} FilterDogsMultiplicity(rows: seq<LicenceRow>)
    ensures forall d :: multiset(FilterDogs(rows))[d] ==
                        (if Keep(Some(d.name)) then multiset(rows)[LicenceRow(d.birthYear, Some(d.name))] else 0)
  {
    if rows != [] {
      FilterDogsMultiplicity(rows[1..]);
      assert rows == [rows[0]] + rows[1..];
    }
  }

  /** A licence is in the filtered table iff some row with that year and name passes the mask. */
  lemma {:induction false} FilterDogsMembers(rows: seq<LicenceRow>, d: Licence)
    ensures d in FilterDogs(rows) <==>
      exists i :: 0 <= i < |rows| && rows[i] == LicenceRow(d.birthYear, Some(d.name)) && Keep(rows[i].animalName)
  {
    if rows != [] {
      FilterDogsMembers(rows[1..], d);
      if exists i :: 0 <= i < |rows| && rows[i] == LicenceRow(d.birthYear, Some(d.name)) && Keep(rows[i].animalName) {
        var i :| 0 <= i < |rows| && rows[i] == LicenceRow(d.birthYear, Some(d.name)) && Keep(rows[i].animalName);
        if i > 0 {
          assert rows[1..][i - 1] == rows[i];
        }
      }
      if exists i :: 0 <= i < |rows[1..]| && rows[1..][i] == LicenceRow(d.birthYear, Some(d.name)) && Keep(rows[1..][i].animalName) {
        var i :| 0 <= i < |rows[1..]| && rows[1..][i] == LicenceRow(d.birthYear, Some(d.name)) && Keep(rows[1..][i].animalName);
        assert rows[i + 1] == rows[1..][i];
      }
    }
  }
}
