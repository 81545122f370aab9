/**
 * The slot contents of the heap: a value tagged with the sequence number it
 * received on insertion (the Java inner class `Wrapper`), and the tie-broken
 * order in which slots are compared.
 */
module Entries {

  /** A wrapped element: the user's value and its insertion sequence number. */
  datatype Entry = Entry(data: int, sequenceNumber: nat)

  /** `Integer.compareTo`: the three-way comparison of two values. */
  function CompareData(x: int, y: int): (r: int)
    ensures -1 <= r <= 1
    ensures r < 0 <==> x < y
    ensures r == 0 <==> x == y
  {
    if x < y then -1 else if x > y then 1 else 0
  }

  /**
   * `Wrapper.compareTo`: order by value first and, on equal values, by
   * sequence number, so that an earlier insertion compares smaller.
   * The sequence numbers are subtracted as unbounded integers.
   */
  function CompareTo(a: Entry, b: Entry): (r: int)
    ensures r < 0 <==> a.data < b.data || (a.data == b.data && a.sequenceNumber < b.sequenceNumber)
    ensures r > 0 <==> a.data > b.data || (a.data == b.data && a.sequenceNumber > b.sequenceNumber)
    ensures r == 0 <==> a == b
  {
    var wrappedElement := CompareData(a.data, b.data);
    if wrappedElement == 0 then a.sequenceNumber - b.sequenceNumber else wrappedElement
  }

  /** `a` may sit above `b` in the heap: `a.compareTo(b) <= 0`. */
  predicate Le(a: Entry, b: Entry)
  {
    CompareTo(a, b) <= 0
  }

  /** The order is total: every pair is comparable. */
  lemma LeTotal(a: Entry, b: Entry)
    ensures Le(a, b) || Le(b, a)
    ensures !Le(a, b) ==> CompareTo(b, a) < 0
  {
  }

  /** The order is transitive. */
  lemma LeTransitive(a: Entry, b: Entry, c: Entry)
    requires Le(a, b) && Le(b, c)
    ensures Le(a, c)
  {
  }

  /** The order is antisymmetric: only identical entries compare equal. */
  lemma LeAntisymmetric(a: Entry, b: Entry)
    requires Le(a, b) && Le(b, a)
    ensures a == b
  {
  }

  /** `compareTo` is antisymmetric in sign. */
  lemma CompareToFlip(a: Entry, b: Entry)
    ensures CompareTo(a, b) == -CompareTo(b, a)
  {
  }
}
