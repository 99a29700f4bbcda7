/** Choosing a destination library: the options the form offers and the
    lookup by title when one is picked. */
module Libraries {
  import opened Types

  /** `documentLibraries.filter(d => d.Title === name)[0]`: the first library
      with that title, or nothing (`undefined`) when none has it. */
  function FindLibrary(libraries: seq<Library>, name: string): (r: Option<Library>)
    ensures r.None? <==> forall i :: 0 <= i < |libraries| ==> libraries[i].title != name
    ensures r.Some? ==> r.value.title == name
    ensures r.Some? ==> exists i :: 0 <= i < |libraries| && libraries[i] == r.value && (forall j :: 0 <= j < i ==> libraries[j].title != name)
  {
    if libraries == [] then None
    else if libraries[0].title == name then Some(libraries[0])
    else
      var rest := FindLibrary(libraries[1..], name);
      assert forall i :: 1 <= i < |libraries| ==> libraries[i] == libraries[1..][i - 1];
      rest
  }

  /** The titles offered by the "Pick a library" choice group, in the order of
      the configured libraries: those whose title is among the permitted ones. */
  function PermittedTitles(libraries: seq<Library>, permitted: seq<string>): (r: seq<string>)
    ensures |r| <= |libraries|
    ensures forall t :: t in r <==> t in permitted && exists i :: 0 <= i < |libraries| && libraries[i].title == t
  {
    if libraries == [] then []
    else
      var rest := PermittedTitles(libraries[1..], permitted);
      assert forall i :: 1 <= i < |libraries| ==> libraries[i] == libraries[1..][i - 1];
      if libraries[0].title in permitted then [libraries[0].title] + rest else rest
  }

  /** The options are a filter of the configured libraries: one library on
      its own gives its title exactly when that title is permitted. */
  lemma PermittedTitlesOfOne(library: Library, permitted: seq<string>)
    ensures PermittedTitles([library], permitted) == if library.title in permitted then [library.title] else []
  {
    assert [library][1..] == [];
  }

  /** ... and the options of two runs of libraries are those of the first
      followed by those of the second, so the configured order and one option
      per permitted library (repeated titles included) are kept. */
  lemma {:induction false} PermittedTitlesAppend(a: seq<Library>, b: seq<Library>, permitted: seq<string>)
    ensures PermittedTitles(a + b, permitted) == PermittedTitles(a, permitted) + PermittedTitles(b, permitted)
    decreases |a|
  {
    if a == [] {
      assert a + b == b;
    } else {
      assert (a + b)[0] == a[0];
      assert (a + b)[1..] == a[1..] + b;
      PermittedTitlesAppend(a[1..], b, permitted);
    }
  }

  /** The choice-group options: none when no libraries are configured
      (`!documentLibraries ? [] : ...`). */
  function LibraryOptions(libraries: Option<seq<Library>>, permitted: seq<string>): (r: seq<string>)
    ensures libraries.None? ==> r == []
    ensures libraries.Some? ==> forall t :: t in r <==> t in permitted && exists i :: 0 <= i < |libraries.value| && libraries.value[i].title == t
  {
    if libraries.None? then [] else PermittedTitles(libraries.value, permitted)
  }

  /** Every option the form offers can be selected: looking its title up
      among the configured libraries finds a library with that title. */
  lemma OptionIsSelectable(libraries: seq<Library>, permitted: seq<string>, title: string)
    requires title in LibraryOptions(Some(libraries), permitted)
    ensures FindLibrary(libraries, title).Some?
    ensures FindLibrary(libraries, title).value.title == title
  {
  }
}
