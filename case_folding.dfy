/** The case-insensitive name comparison both `Database` classes use to keep
    their `Categories` list free of duplicates
    (`x.Name.ToLower() == name.ToLower()`). `ToLower` is modelled on ASCII
    letters only. */
module CaseFolding {

  /** The lower-case form of an ASCII upper-case letter; any other character
      is left alone. */
  function LowerChar(c: char): char {
    if 'A' <= c <= 'Z' then (c as int + 32) as char else c
  }

  /** `s.ToLower()`. */
  function ToLower(s: string): (r: string)
    ensures |r| == |s|
    ensures forall i :: 0 <= i < |s| ==> r[i] == LowerChar(s[i])
  {
    if s == [] then [] else [LowerChar(s[0])] + ToLower(s[1..])
  }

  predicate EqualsIgnoringCase(a: string, b: string) {
    ToLower(a) == ToLower(b)
  }

  /** `names.Where(x => x.ToLower() == name.ToLower()).Any()`. */
  predicate ContainsIgnoringCase(names: seq<string>, name: string) {
    exists i :: 0 <= i < |names| && EqualsIgnoringCase(names[i], name)
  }

  /** No two names of the list differ only in the case of their letters. */
  predicate DistinctIgnoringCase(names: seq<string>) {
    forall i, j :: 0 <= i < j < |names| ==> !EqualsIgnoringCase(names[i], names[j])
  }

  /** The bookkeeping of `CreateCategory` and `GetCategory` on the names of
      `Categories`: append the name unless a name equal to it ignoring case
      is already there. */
  function AddIfAbsent(names: seq<string>, name: string): (r: seq<string>)
    ensures ContainsIgnoringCase(r, name)
    ensures r == names <==> ContainsIgnoringCase(names, name)
    ensures r != names ==> r == names + [name]
  {
    if ContainsIgnoringCase(names, name) then names
    else
      var r := names + [name];
      assert EqualsIgnoringCase(r[|names|], name);
      r
  }

  /** The bookkeeping keeps the list free of case-insensitive duplicates. */
  lemma AddIfAbsentKeepsDistinct(names: seq<string>, name: string)
    requires DistinctIgnoringCase(names)
    ensures DistinctIgnoringCase(AddIfAbsent(names, name))
    ensures |AddIfAbsent(names, name)| <= |names| + 1
  {
    var r := AddIfAbsent(names, name);
    if r != names {
      forall i, j | 0 <= i < j < |r|
        ensures !EqualsIgnoringCase(r[i], r[j])
      {
        if j == |names| {
          assert r[i] == names[i];
        }
      }
    }
  }
}
