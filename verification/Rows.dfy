/** Table rows: JSON objects reduced to the distinctions the storage layer
    makes, and the keys it derives from them (heap.rs, mvcc.rs). */
module Rows {
  import opened Basics

  type u64 = n: int | 0 <= n <= 0xFFFF_FFFF_FFFF_FFFF

  type i64 = n: int | -0x8000_0000_0000_0000 <= n < 0x8000_0000_0000_0000

  /** A JSON value. `Whole` is a number with an integral value, written either
      as an integer or as a float; `Fraction` any other number, by its bits;
      `Enum` a well-formed enum object; `Opaque` every value without a key. */
  datatype Value =
    | Null
    | Boolean(b: bool)
    | Whole(n: i64, float: bool)
    | Fraction(bits: u64)
    | Text(utf8: seq<byte>)
    | Enum(rank: i64)
    | Opaque(tag: nat)

  datatype Row = Row(fields: map<string, Value>)

  const ID := "id"

  /** heap.rs `scalar_int` of one column. */
  function IntOf(row: Row, column: string): Option<i64> {
    if column in row.fields && row.fields[column].Whole? then Some(row.fields[column].n) else None
  }

  /** heap.rs `key_of`: eight big-endian bytes with the sign bit flipped. */
  function KeyOf(n: i64): (key: seq<byte>)
    ensures |key| == 8
  {
    BigEndian(n + 0x8000_0000_0000_0000, 8)
  }

  /** The index key of an integer keeps its order, negative numbers first. */
  lemma KeyOfOrder(m: i64, n: i64)
    ensures LexLess(KeyOf(m), KeyOf(n)) <==> m < n
    ensures KeyOf(m) == KeyOf(n) <==> m == n
  {
    assert Pow256(8) == 0x1_0000_0000_0000_0000 by {
      assert Pow256(4) == 0x1_0000_0000;
    }
    BigEndianOrder(m + 0x8000_0000_0000_0000, n + 0x8000_0000_0000_0000, 8);
  }

  /** heap.rs `row_key`: the index key of one column, if it has one. */
  function RowKey(row: Row, column: string): Option<seq<byte>> {
    if column !in row.fields then None
    else match row.fields[column]
      case Whole(n, _) => Some(KeyOf(n))
      case Text(utf8) => Some(utf8)
      case Boolean(b) => Some([if b then 1 else 0])
      case Enum(rank) => Some(KeyOf(rank))
      case _ => None
  }

  /** mvcc.rs `unique_key`: as `row_key`, and fractions by their bits. */
  function UniqueKey(row: Row, column: string): Option<seq<byte>> {
    if column !in row.fields || row.fields[column].Null? then None
    else if RowKey(row, column).Some? then RowKey(row, column)
    else match row.fields[column]
      case Fraction(bits) => Some(['f' as int] + BigEndian(bits, 8))
      case _ => None
  }

  /** Two values of one kind that an index must tell apart. A whole number is the same written as
      an integer or as a float. */
  predicate SameValue(a: Value, b: Value) {
    match (a, b)
    case (Whole(m, _), Whole(n, _)) => m == n
    case (Text(s), Text(t)) => s == t
    case (Boolean(x), Boolean(y)) => x == y
    case (Enum(m), Enum(n)) => m == n
    case (Fraction(x), Fraction(y)) => x == y
    case _ => false
  }

  predicate SameKind(a: Value, b: Value) {
    (a.Whole? && b.Whole?) || (a.Text? && b.Text?) || (a.Boolean? && b.Boolean?) || (a.Enum? && b.Enum?) || (a.Fraction? && b.Fraction?)
  }

  /** Whole numbers, texts, booleans and enum values have an index key, nothing else has; and of
      one kind, equal keys mean equal values. */
  lemma RowKeyExact(a: Row, b: Row, column: string)
    ensures RowKey(a, column).Some? <==>
      column in a.fields && (a.fields[column].Whole? || a.fields[column].Text? || a.fields[column].Boolean? || a.fields[column].Enum?)
    ensures RowKey(a, column).Some? && column in b.fields && SameKind(a.fields[column], b.fields[column]) ==>
      (RowKey(a, column) == RowKey(b, column) <==> SameValue(a.fields[column], b.fields[column]))
  {
    if RowKey(a, column).Some? && column in b.fields {
      match (a.fields[column], b.fields[column])
      case (Whole(m, _), Whole(n, _)) => KeyOfOrder(m, n);
      case (Enum(m), Enum(n)) => KeyOfOrder(m, n);
      case _ =>
    }
  }

  /** Business keys: as index keys, and fractions too; of one kind, equal keys mean equal values. */
  lemma UniqueKeyExact(a: Row, b: Row, column: string)
    ensures UniqueKey(a, column).Some? <==>
      column in a.fields && !a.fields[column].Null? && !a.fields[column].Opaque?
    ensures UniqueKey(a, column).Some? && column in b.fields && SameKind(a.fields[column], b.fields[column]) ==>
      (UniqueKey(a, column) == UniqueKey(b, column) <==> SameValue(a.fields[column], b.fields[column]))
  {
    RowKeyExact(a, b, column);
    RowKeyExact(b, a, column);
    if column in a.fields && column in b.fields && a.fields[column].Fraction? && b.fields[column].Fraction? {
      var x, y := a.fields[column].bits, b.fields[column].bits;
      assert Pow256(8) == 0x1_0000_0000_0000_0000 by {
        assert Pow256(4) == 0x1_0000_0000;
      }
      BigEndianOrder(x, y, 8);
      assert (['f' as int] + BigEndian(x, 8))[1..] == BigEndian(x, 8) && (['f' as int] + BigEndian(y, 8))[1..] == BigEndian(y, 8);
    }
  }
}
