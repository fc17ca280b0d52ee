/**
 * The image catalog (`get_photo_list`): the names in the photo folder, without the reserved
 * welcome images, sorted the way Python's `sorted` orders strings.
 */
module PhotoCatalog {
  import opened Common
  import opened Text

  const WelcomePrefix := "start"

  /** Names reserved for the welcome image: their lower-case form starts with "start". */
  predicate IsWelcomeName(name: string)
  {
    StartsWith(Lower(name), WelcomePrefix)
  }

  /** The listing without its welcome names, in listing order. */
  function DropWelcome(listing: seq<string>): (r: seq<string>)
    ensures forall x :: multiset(r)[x] == if IsWelcomeName(x) then 0 else multiset(listing)[x]
  {
    if listing == [] then []
    else
      assert listing == [listing[0]] + listing[1..];
      (if IsWelcomeName(listing[0]) then [] else [listing[0]]) + DropWelcome(listing[1..])
  }

  /** Ascending in Python's string order. */
  predicate Sorted(s: seq<string>)
  {
    forall i :: 0 < i < |s| ==> LexLe(s[i - 1], s[i])
  }

  function Insert(x: string, s: seq<string>): (r: seq<string>)
    requires Sorted(s)
    ensures Sorted(r)
    ensures multiset(r) == multiset(s) + multiset{x}
    ensures |r| == |s| + 1 && (r[0] == x || (s != [] && r[0] == s[0]))
    decreases |s|
  {
    if s == [] || LexLe(x, s[0]) then [x] + s
    else
      LexLeTotal(x, s[0]);
      assert s == [s[0]] + s[1..];
      [s[0]] + Insert(x, s[1..])
  }

  function SortNames(s: seq<string>): (r: seq<string>)
    ensures Sorted(r)
    ensures multiset(r) == multiset(s)
  {
    if s == [] then []
    else
      assert s == [s[0]] + s[1..];
      Insert(s[0], SortNames(s[1..]))
  }

  /** `get_photo_list()` applied to the folder listing `listing`. */
  function PhotoList(listing: seq<string>): (r: seq<string>)
    ensures Sorted(r)
    ensures forall x :: multiset(r)[x] == if IsWelcomeName(x) then 0 else multiset(listing)[x]
    ensures forall x :: x in r <==> x in listing && !IsWelcomeName(x)
  {
    var r := SortNames(DropWelcome(listing));
    assert forall x :: x in r <==> x in multiset(r);
    r
  }

  lemma {:induction false} SortedFirstIsLeast(s: seq<string>, j: nat)
    requires Sorted(s) && j < |s|
    ensures LexLe(s[0], s[j])
  {
    if j == 0 {
      LexLeTotal(s[0], s[0]);
    } else {
      SortedFirstIsLeast(s, j - 1);
      LexLeTransitive(s[0], s[j - 1], s[j]);
    }
  }

  /** Two sorted sequences with the same elements start with the same, least, element. */
  lemma SortedSameHead(a: seq<string>, b: seq<string>)
    requires Sorted(a) && Sorted(b) && multiset(a) == multiset(b) && a != []
    ensures b != [] && a[0] == b[0]
  {
    assert a[0] in multiset(b);
    var i :| 0 <= i < |b| && b[i] == a[0];
    assert b[0] in multiset(a);
    var j :| 0 <= j < |a| && a[j] == b[0];
    SortedFirstIsLeast(b, i);
    SortedFirstIsLeast(a, j);
    LexLeAntisymmetric(a[0], b[0]);
  }

  /** Two sorted sequences with the same elements are equal: sorting has only one possible outcome. */
  lemma {:induction false} SortedUnique(a: seq<string>, b: seq<string>)
    requires Sorted(a) && Sorted(b) && multiset(a) == multiset(b)
    ensures a == b
    decreases |a|
  {
    if a == [] {
      assert |b| == |multiset(b)| == 0;
    } else {
      SortedSameHead(a, b);
      assert a == [a[0]] + a[1..];
      assert b == [b[0]] + b[1..];
      assert multiset(a[1..]) == multiset(a) - multiset{a[0]};
      assert multiset(b[1..]) == multiset(b) - multiset{b[0]};
      SortedUnique(a[1..], b[1..]);
    }
  }

  /**
   * The catalog is determined by what it must be: any ascending sequence holding exactly the
   * non-welcome names of the listing, each as often as listed, is the catalog.
   */
  lemma PhotoListIsTheSortedSelection(listing: seq<string>, c: seq<string>)
    requires Sorted(c)
    requires forall x :: multiset(c)[x] == if IsWelcomeName(x) then 0 else multiset(listing)[x]
    ensures c == PhotoList(listing)
  {
    var r := PhotoList(listing);
    assert multiset(c) == multiset(r);
    SortedUnique(c, r);
  }

  /** A folder listing names each file once, and so does the catalog built from it. */
  lemma PhotoListNoDuplicates(listing: seq<string>)
    requires NoDuplicates(listing)
    ensures NoDuplicates(PhotoList(listing))
  {
    NoDuplicatesByCount(listing);
    NoDuplicatesByCount(PhotoList(listing));
  }
}
