/**
 * Character counting over a string that lives on the heap behind a shared
 * handle (smart-ptr/src/mutation.hpp).
 *
 * A `std::string` reached through a `shared_ptr` or `unique_ptr` is a
 * `StringCell` object; the handle is a reference to it, so every copy of the
 * handle names the same cell and sees every write made through any of them.
 */
module Mutation {

  /** The heap `std::string` that shared and unique handles point at. */
  class StringCell {
    var text: seq<char>

    constructor (text: seq<char>)
      ensures this.text == text
    {
      this.text := text;
    }
  }

  /** The character `count_bad` writes over every match. */
  const Mask := '*'

  /** Number of positions of `s` that hold `d`, counted from the front. */
  function Occurrences(s: seq<char>, d: char): (n: nat)
    ensures n <= |s|
  {
    if s == [] then 0
    else Occurrences(s[..|s| - 1], d) + (if s[|s| - 1] == d then 1 else 0)
  }

  /** The positions of `s` that hold `d`. */
  ghost function IndicesOf(s: seq<char>, d: char): set<int>
  {
    set i | 0 <= i < |s| && s[i] == d
  }

  /** `Occurrences` is exactly the number of indices that hold `d`. */
  lemma {:induction false} OccurrencesIsIndexCount(s: seq<char>, d: char)
    ensures Occurrences(s, d) == |IndicesOf(s, d)|
  {
    if s != [] {
      var init, last := s[..|s| - 1], |s| - 1;
      OccurrencesIsIndexCount(init, d);
      var before := IndicesOf(init, d);
      assert last !in before;
      if s[last] == d {
        assert IndicesOf(s, d) == before + {last};
      } else {
        assert IndicesOf(s, d) == before;
      }
    }
  }

  /** A string has no occurrence of `d` exactly when no position holds `d`. */
  lemma {:induction false} AbsentIffZero(s: seq<char>, d: char)
    ensures Occurrences(s, d) == 0 <==> forall i :: 0 <= i < |s| ==> s[i] != d
  {
    OccurrencesIsIndexCount(s, d);
    if Occurrences(s, d) == 0 {
      assert IndicesOf(s, d) == {};
      forall i | 0 <= i < |s| ensures s[i] != d {
        assert i !in IndicesOf(s, d);
      }
    } else {
      var i :| i in IndicesOf(s, d);
      assert s[i] == d;
    }
  }

  /** What `count_bad` leaves in the string: every `d` replaced by the mask. */
  function Masked(s: seq<char>, d: char): (r: seq<char>)
    ensures |r| == |s|
    ensures forall i :: 0 <= i < |s| ==> r[i] == (if s[i] == d then Mask else s[i])
  {
    if s == [] then []
    else Masked(s[..|s| - 1], d) + [if s[|s| - 1] == d then Mask else s[|s| - 1]]
  }

  /** Masking a character other than the mask itself leaves none of it behind. */
  lemma {:induction false} MaskedHasNone(s: seq<char>, d: char)
    requires d != Mask
    ensures Occurrences(Masked(s, d), d) == 0
  {
    AbsentIffZero(Masked(s, d), d);
  }

  /** Every match becomes a mask character: the masks afterwards are the old
      masks plus the matches (or just the old masks when `d` is the mask). */
  lemma {:induction false} MaskedMaskCount(s: seq<char>, d: char)
    ensures Occurrences(Masked(s, d), Mask)
         == Occurrences(s, Mask) + (if d == Mask then 0 else Occurrences(s, d))
  {
    if s != [] {
      var init := s[..|s| - 1];
      MaskedMaskCount(init, d);
      var m := Masked(s, d);
      assert m[..|m| - 1] == Masked(init, d);
    }
  }

  /** `count_good`: counts `d` in `s`, reading only (a const reference). */
  method CountGood(s: seq<char>, d: char) returns (count: int)
    ensures count == Occurrences(s, d)
    ensures 0 <= count <= |s|
  {
    count := 0;
    var i := 0;
    while i < |s|
      invariant 0 <= i <= |s|
      invariant count == Occurrences(s[..i], d)
    {
      assert s[..i + 1][..i] == s[..i];
      if s[i] == d {
        count := count + 1;
      }
      i := i + 1;
    }
    assert s[..i] == s;
  }

  /** `count_bad`: the same count as `CountGood` on the string as it was, but
      each match is overwritten with the mask through the shared handle. */
  method CountBad(cell: StringCell, d: char) returns (count: int)
    modifies cell
    ensures count == Occurrences(old(cell.text), d)
    ensures 0 <= count <= |cell.text|
    ensures cell.text == Masked(old(cell.text), d)
    ensures |cell.text| == |old(cell.text)|
    ensures forall i :: 0 <= i < |cell.text| ==>
      cell.text[i] == (if old(cell.text)[i] == d then Mask else old(cell.text)[i])
    ensures d != Mask ==> Occurrences(cell.text, d) == 0
  {
    ghost var orig := cell.text;
    count := 0;
    var i := 0;
    while i < |cell.text|
      invariant 0 <= i <= |cell.text| == |orig|
      invariant count == Occurrences(orig[..i], d)
      invariant forall k :: 0 <= k < i ==> cell.text[k] == (if orig[k] == d then Mask else orig[k])
      invariant forall k :: i <= k < |orig| ==> cell.text[k] == orig[k]
    {
      assert orig[..i + 1][..i] == orig[..i];
      if cell.text[i] == d {
        count := count + 1;
        cell.text := cell.text[i := Mask];
      }
      i := i + 1;
    }
    assert orig[..i] == orig;
    if d != Mask {
      MaskedHasNone(orig, d);
    }
  }

  /** Calling `count_bad` twice in a row: the second call finds nothing. */
  method CountBadTwice(cell: StringCell, d: char) returns (first: int, second: int)
    requires d != Mask
    modifies cell
    ensures first == Occurrences(old(cell.text), d)
    ensures second == 0
    ensures cell.text == Masked(old(cell.text), d)
  {
    first := CountBad(cell, d);
    ghost var afterFirst := cell.text;
    second := CountBad(cell, d);
    assert afterFirst == cell.text;
  }

  /** `mutate`: writes a literal through a shared handle. */
  method Mutate(value: StringCell)
    modifies value
    ensures value.text == "Not what you think!"
  {
    value.text := "Not what you think!";
  }

  /** `mutate2`: copies the handle, not the string, then writes through the copy. */
  method Mutate2(value: StringCell)
    modifies value
    ensures value.text == "Still not what you think"
  {
    var copy := value;
    copy.text := "Still not what you think";
  }

  /** `mutate_unique`: writes a literal through a unique handle. */
  method MutateUnique(value: StringCell)
    modifies value
    ensures value.text == "Same with unique_ptr"
  {
    value.text := "Same with unique_ptr";
  }

  /** Handles are shared, strings are not copied: a write through one holder
      of a shared handle is what every other holder reads afterwards. */
  method AliasDemo() returns (first: seq<char>, second: seq<char>, third: seq<char>)
    ensures first == "Not what you think!"
    ensures second == "Still not what you think"
    ensures third == "Same with unique_ptr"
  {
    var shared := new StringCell("Hello shared world!");
    var holder := shared;
    Mutate(shared);
    first := holder.text;
    Mutate2(holder);
    second := shared.text;
    var unique := new StringCell("Hello unique world!");
    MutateUnique(unique);
    third := unique.text;
  }

  /** The `mutation` demo: a fresh shared string, counted the good way and then
      the bad way; both give 3, and the bad way masks every 'l'. */
  method CountDemo() returns (good: int, bad: int, after: seq<char>)
    ensures good == 3 && bad == 3
    ensures after == "He**o shared wor*d!"
  {
    var shared := new StringCell("Hello shared world!");
    OccurrencesIsIndexCount(shared.text, 'l');
    assert IndicesOf(shared.text, 'l') == {2, 3, 16};
    good := CountGood(shared.text, 'l');
    bad := CountBad(shared, 'l');
    after := shared.text;
  }
}
