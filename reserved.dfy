/**
 * The reserved-keyword table of SQLFormat and the test `format` applies to
 * each word: a binary search of the sorted table under String.compareTo.
 */
module SqlReserved {

  /** The keywords, in the order the table lists them. */
  const Reserveds: seq<string> := ["ALL", "AND", "BY", "DISTINCT", "FROM", "GROUP", "HAVING", "JOIN",
                                   "LEFT", "ON", "OR", "ORDER", "OUTER", "SELECT", "WHERE"]

  /** A word is reserved when it is exactly (case included) one of the keywords. */
  predicate IsReserved(t: string) {
    t in Reserveds
  }

  /**
   * The sign of a.compareTo(b): the first differing character decides, and
   * when one string is a prefix of the other the shorter one comes first.
   */
  function Compare(a: string, b: string): (c: int)
    ensures -1 <= c <= 1
  {
    if a == [] && b == [] then 0
    else if a == [] then -1
    else if b == [] then 1
    else if a[0] < b[0] then -1
    else if a[0] > b[0] then 1
    else Compare(a[1..], b[1..])
  }

  /** compareTo answers 0 exactly on equal strings. */
  lemma {:induction false} CompareZero(a: string, b: string)
    ensures Compare(a, b) == 0 <==> a == b
  {
    if a != [] && b != [] && a[0] == b[0] {
      CompareZero(a[1..], b[1..]);
      assert a == [a[0]] + a[1..] && b == [b[0]] + b[1..];
    }
  }

  /** Swapping the arguments flips the sign. */
  lemma {:induction false} CompareFlip(a: string, b: string)
    ensures Compare(b, a) == -Compare(a, b)
  {
    if a != [] && b != [] && a[0] == b[0] {
      CompareFlip(a[1..], b[1..]);
    }
  }

  /** The order compareTo defines is transitive. */
  lemma {:induction false} CompareTrans(a: string, b: string, c: string)
    requires Compare(a, b) < 0 && Compare(b, c) < 0
    ensures Compare(a, c) < 0
  {
    if a != [] && b != [] && c != [] && a[0] == b[0] == c[0] {
      CompareTrans(a[1..], b[1..], c[1..]);
    }
  }

  /** Strictly ascending under compareTo, the order Arrays.binarySearch needs. */
  ghost predicate Sorted(a: seq<string>) {
    forall i, j :: 0 <= i < j < |a| ==> Compare(a[i], a[j]) < 0
  }

  /** Ascending neighbours make the whole sequence ascending. */
  lemma {:induction false} SortedByNeighbours(a: seq<string>)
    requires forall i :: 0 <= i < |a| - 1 ==> Compare(a[i], a[i + 1]) < 0
    ensures Sorted(a)
    decreases |a|
  {
    if |a| > 1 {
      var t := a[1..];
      assert forall i :: 0 <= i < |t| - 1 ==> Compare(t[i], t[i + 1]) < 0 by {
        forall i | 0 <= i < |t| - 1 ensures Compare(t[i], t[i + 1]) < 0 {
          assert t[i] == a[i + 1] && t[i + 1] == a[i + 2];
        }
      }
      SortedByNeighbours(t);
      forall i, j | 0 <= i < j < |a| ensures Compare(a[i], a[j]) < 0 {
        if i > 0 {
          assert a[i] == t[i - 1] && a[j] == t[j - 1];
        } else if j > 1 {
          assert a[1] == t[0] && a[j] == t[j - 1];
          CompareTrans(a[0], a[1], a[j]);
        }
      }
    }
  }

  /** The keyword table is strictly sorted, as binary search requires. */
  lemma ReservedsSorted()
    ensures Sorted(Reserveds)
  {
    var r := Reserveds;
    assert Compare(r[0], r[1]) < 0;    // ALL < AND
    assert Compare(r[1], r[2]) < 0;    // AND < BY
    assert Compare(r[2], r[3]) < 0;    // BY < DISTINCT
    assert Compare(r[3], r[4]) < 0;    // DISTINCT < FROM
    assert Compare(r[4], r[5]) < 0;    // FROM < GROUP
    assert Compare(r[5], r[6]) < 0;    // GROUP < HAVING
    assert Compare(r[6], r[7]) < 0;    // HAVING < JOIN
    assert Compare(r[7], r[8]) < 0;    // JOIN < LEFT
    assert Compare(r[8], r[9]) < 0;    // LEFT < ON
    assert Compare(r[9], r[10]) < 0;   // ON < OR
    assert Compare(r[10], r[11]) < 0;  // OR < ORDER
    assert Compare(r[11], r[12]) < 0;  // ORDER < OUTER
    assert Compare(r[12], r[13]) < 0;  // OUTER < SELECT
    assert Compare(r[13], r[14]) < 0;  // SELECT < WHERE
    SortedByNeighbours(r);
  }

  /**
   * Arrays.binarySearch over a sorted table: the index of `key` when it is
   * present, otherwise -(insertion point) - 1.
   */
  method BinarySearch(a: seq<string>, key: string) returns (r: int)
    requires Sorted(a)
    ensures 0 <= r ==> r < |a| && a[r] == key
    ensures r < 0 ==> key !in a
    ensures r < 0 ==> var ip := -r - 1;
      0 <= ip <= |a| &&
      (forall i :: 0 <= i < ip ==> Compare(a[i], key) < 0) &&
      (forall i :: ip <= i < |a| ==> Compare(a[i], key) > 0)
  {
    var low, high := 0, |a| - 1;
    while low <= high
      invariant 0 <= low <= high + 1 <= |a|
      invariant forall i :: 0 <= i < low ==> Compare(a[i], key) < 0
      invariant forall i :: high < i < |a| ==> Compare(a[i], key) > 0
    {
      var mid := (low + high) / 2;
      var cmp := Compare(a[mid], key);
      if cmp < 0 {
        forall i | 0 <= i < mid ensures Compare(a[i], key) < 0 {
          CompareTrans(a[i], a[mid], key);
        }
        low := mid + 1;
      } else if cmp > 0 {
        forall i | mid < i < |a| ensures Compare(a[i], key) > 0 {
          CompareFlip(a[mid], a[i]);
          CompareFlip(a[i], key);
          CompareFlip(a[mid], key);
          CompareTrans(key, a[mid], a[i]);
        }
        high := mid - 1;
      } else {
        CompareZero(a[mid], key);
        return mid;
      }
    }
    forall i | 0 <= i < |a| ensures a[i] != key {
      CompareZero(a[i], key);
    }
    r := -(low + 1);
  }

  /** The test `format` applies to a word, `binarySearch(reserveds, t) >= 0`. */
  method IsReservedWord(t: string) returns (reserved: bool)
    ensures reserved <==> IsReserved(t)
  {
    ReservedsSorted();
    var r := BinarySearch(Reserveds, t);
    reserved := r >= 0;
  }

  /** Case matters: the lower-case spelling of a keyword is not reserved. */
  lemma CaseSensitive()
    ensures IsReserved("SELECT") && !IsReserved("select")
    ensures IsReserved("FROM") && !IsReserved("from")
  {
  }
}
