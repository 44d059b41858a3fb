/** The string table the reader shares between all nodes and streams: a list that only grows,
    and a lookup from a name to its position. A name is stored once and identified by index. */
module Names {
  import opened Common

  /** Position of the first occurrence of `name`. */
  function IndexOf(names: seq<Utf16>, name: Utf16): (i: nat)
    requires name in names
    ensures i < |names| && names[i] == name
    ensures forall j :: 0 <= j < i ==> names[j] != name
  {
    if names[0] == name then 0 else 1 + IndexOf(names[1..], name)
  }

  /** No name is stored twice. */
  predicate Unique(names: seq<Utf16>) {
    forall i, j :: 0 <= i < j < |names| ==> names[i] != names[j]
  }

  /** The index handed out for `name`, and the table after the request. */
  function Intern(names: seq<Utf16>, name: Utf16): (r: (nat, seq<Utf16>))
    ensures r.0 < |r.1| && r.1[r.0] == name
    ensures |names| <= |r.1| <= |names| + 1 && r.1[..|names|] == names
    ensures name in names <==> r.1 == names
  {
    if name in names then (IndexOf(names, name), names) else (|names|, names + [name])
  }

  /** Interning a name a second time returns the same index and leaves the table alone. */
  lemma {:induction false} InternIdempotent(names: seq<Utf16>, name: Utf16)
    ensures Intern(Intern(names, name).1, name) == Intern(names, name)
  {
    if name !in names {
      FirstOccurrenceAtEnd(names, name);
    }
  }

  lemma {:induction false} FirstOccurrenceAtEnd(names: seq<Utf16>, name: Utf16)
    requires name !in names
    ensures IndexOf(names + [name], name) == |names|
  {
    if |names| > 0 {
      assert (names + [name])[1..] == names[1..] + [name];
      FirstOccurrenceAtEnd(names[1..], name);
    }
  }

  /** The table never holds a name twice: a new name is appended only when it is absent. */
  lemma InternKeepsUnique(names: seq<Utf16>, name: Utf16)
    requires Unique(names)
    ensures Unique(Intern(names, name).1)
  {
  }

  /** An index is never reassigned: every earlier index still denotes the same name. */
  lemma InternKeepsIndices(names: seq<Utf16>, name: Utf16, i: nat)
    requires i < |names|
    ensures i < |Intern(names, name).1| && Intern(names, name).1[i] == names[i]
  {
    assert Intern(names, name).1[..|names|] == names;
  }

  /** `GetNameFromIndex`: index 0 reads as null; any other index is looked up in the list. */
  function NameFromIndex(names: seq<Utf16>, nameIndex: nat): (r: Result<Option<Utf16>>)
    ensures r.Ok? <==> nameIndex == 0 || nameIndex < |names|
    ensures r.Ok? && r.value.Some? ==> r.value.value in names
  {
    if nameIndex == 0 then Ok(None)
    else if nameIndex < |names| then Ok(Some(names[nameIndex]))
    else Err(IndexOutOfRange)
  }

  /** A name interned at a non-zero index reads back as itself. */
  lemma InternThenLookup(names: seq<Utf16>, name: Utf16)
    requires Intern(names, name).0 != 0
    ensures NameFromIndex(Intern(names, name).1, Intern(names, name).0) == Ok(Some(name))
  {
  }

  /** Slot 0 is not reserved: the first name ever interned receives index 0, and that index then
      reads back as null, like the index of a node that has no name. */
  lemma FirstNameReadsAsNull(name: Utf16)
    ensures Intern([], name) == (0, [name])
    ensures NameFromIndex(Intern([], name).1, Intern([], name).0) == Ok(None)
  {
  }
}
