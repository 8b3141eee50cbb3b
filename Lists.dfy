/** The parts of the growable int/long lists (IntArrayList, LongArrayList) that
    the compressed-row matrix relies on, over plain sequences. The list classes
    themselves are not part of this model; these members carry the standard
    contracts of `beforeInsert`, `remove` and `binarySearchFromTo`. */
module Lists {

  /** s is non-decreasing on the index range [lo, hi). */
  ghost predicate Sorted(s: seq<int>, lo: int, hi: int)
    requires 0 <= lo <= hi <= |s|
  {
    forall i, j :: lo <= i <= j < hi ==> s[i] <= s[j]
  }

  /** s is strictly increasing on the index range [lo, hi). */
  ghost predicate Increasing(s: seq<int>, lo: int, hi: int)
    requires 0 <= lo <= hi <= |s|
  {
    forall i, j :: lo <= i < j < hi ==> s[i] < s[j]
  }

  /** `beforeInsert(index, x)`: x lands at `index`, the tail moves up by one. */
  function InsertAt(s: seq<int>, index: int, x: int): (r: seq<int>)
    requires 0 <= index <= |s|
    ensures |r| == |s| + 1
    ensures r[index] == x
    ensures forall j :: 0 <= j < index ==> r[j] == s[j]
    ensures forall j :: index < j < |r| ==> r[j] == s[j - 1]
  {
    s[..index] + [x] + s[index..]
  }

  /** `remove(index)`: the element at `index` goes, the tail moves down by one. */
  function RemoveAt(s: seq<int>, index: int): (r: seq<int>)
    requires 0 <= index < |s|
    ensures |r| == |s| - 1
    ensures forall j :: 0 <= j < index ==> r[j] == s[j]
    ensures forall j :: index <= j < |r| ==> r[j] == s[j + 1]
  {
    s[..index] + s[index + 1..]
  }

  /** `binarySearchFromTo(key, from, to)` on a list sorted on the inclusive
      range [from, to]: the index of key when it occurs there, otherwise
      -(insertion point) - 1, where the insertion point splits the range into
      the elements below key and the elements above it. */
  method BinarySearchFromTo(list: seq<int>, key: int, from: int, to: int) returns (k: int)
    requires 0 <= from <= to + 1 <= |list|
    requires Sorted(list, from, to + 1)
    ensures k >= 0 ==> from <= k <= to && list[k] == key
    ensures k < 0 ==> from <= -k - 1 <= to + 1
    ensures k < 0 ==> forall j :: from <= j < -k - 1 ==> list[j] < key
    ensures k < 0 ==> forall j :: -k - 1 <= j <= to ==> key < list[j]
  {
    var low, high := from, to;
    while low <= high
      invariant from <= low <= high + 1 <= to + 1
      invariant forall j :: from <= j < low ==> list[j] < key
      invariant forall j :: high < j <= to ==> key < list[j]
    {
      var mid := (low + high) / 2;
      var midVal := list[mid];
      if midVal < key {
        low := mid + 1;
      } else if midVal > key {
        high := mid - 1;
      } else {
        return mid;
      }
    }
    return -(low + 1);
  }
}
