/** The weekly-reading table and its flattening (the `READINGS` rows that
    `HDate.get_reading` chains together for one year type). */
module Readings {

  /** An element of a row's reading list: one portion id, or a list of ids
      for consecutive weeks. */
  datatype ReadingEntry = Portion(id: int) | Portions(ids: seq<int>)

  /** A row of the table: the year-type keys it serves and its readings. */
  datatype ReadingRow = ReadingRow(yearTypes: seq<int>, readings: seq<ReadingEntry>)

  /** The ids an entry contributes: an int one, a list each of its members. */
  function EntryIds(e: ReadingEntry): seq<int> {
    match e
    case Portion(id) => [id]
    case Portions(ids) => ids
  }

  /** `chain` over a row's entries. */
  function Expand(es: seq<ReadingEntry>): seq<int> {
    if es == [] then [] else EntryIds(es[0]) + Expand(es[1..])
  }

  /** The readings of every row whose keys contain `key`, rows in table order. */
  function Flatten(rows: seq<ReadingRow>, key: int): seq<int> {
    if rows == [] then []
    else (if key in rows[0].yearTypes then Expand(rows[0].readings) else []) + Flatten(rows[1..], key)
  }

  lemma {:induction false} ExpandAppend(a: seq<ReadingEntry>, b: seq<ReadingEntry>)
    ensures Expand(a + b) == Expand(a) + Expand(b)
  {
    if a == [] {
      assert a + b == b;
    } else {
      assert (a + b)[0] == a[0] && (a + b)[1..] == a[1..] + b;
      ExpandAppend(a[1..], b);
    }
  }

  /** Entry k's ids sit in the expansion right after the ids of the entries
      before it, each id at its own index. */
  lemma ExpandAt(es: seq<ReadingEntry>, k: int, p: int)
    requires 0 <= k < |es| && 0 <= p < |EntryIds(es[k])|
    ensures |Expand(es[..k])| + p < |Expand(es)|
    ensures Expand(es)[|Expand(es[..k])| + p] == EntryIds(es[k])[p]
  {
    assert es == es[..k] + ([es[k]] + es[k + 1..]);
    ExpandAppend(es[..k], [es[k]] + es[k + 1..]);
    ExpandAppend([es[k]], es[k + 1..]);
    assert Expand([es[k]]) == EntryIds(es[k]) + Expand([]);
  }

  /** Entries that are all single ids expand to those ids, one per index. */
  lemma {:induction false} ExpandSingles(es: seq<ReadingEntry>)
    requires forall k :: 0 <= k < |es| ==> es[k].Portion?
    ensures |Expand(es)| == |es|
    ensures forall k :: 0 <= k < |es| ==> Expand(es)[k] == es[k].id
  {
    if es != [] {
      ExpandSingles(es[1..]);
      assert forall k :: 1 <= k < |es| ==> es[1..][k - 1] == es[k];
    }
  }

  lemma {:induction false} FlattenAppend(a: seq<ReadingRow>, b: seq<ReadingRow>, key: int)
    ensures Flatten(a + b, key) == Flatten(a, key) + Flatten(b, key)
  {
    if a == [] {
      assert a + b == b;
    } else {
      assert (a + b)[0] == a[0] && (a + b)[1..] == a[1..] + b;
      FlattenAppend(a[1..], b, key);
    }
  }

  /** With no row for the key the flattened list is empty. */
  lemma {:induction false} FlattenNoRow(rows: seq<ReadingRow>, key: int)
    requires forall i :: 0 <= i < |rows| ==> key !in rows[i].yearTypes
    ensures Flatten(rows, key) == []
  {
    if rows != [] {
      assert forall i :: 1 <= i < |rows| ==> rows[1..][i - 1] == rows[i];
      FlattenNoRow(rows[1..], key);
    }
  }

  /** With exactly one row for the key the flattened list is that row's readings. */
  lemma FlattenOnlyRow(rows: seq<ReadingRow>, key: int, i: int)
    requires 0 <= i < |rows| && key in rows[i].yearTypes
    requires forall j :: 0 <= j < |rows| && j != i ==> key !in rows[j].yearTypes
    ensures Flatten(rows, key) == Expand(rows[i].readings)
  {
    assert rows == rows[..i] + ([rows[i]] + rows[i + 1..]);
    FlattenAppend(rows[..i], [rows[i]] + rows[i + 1..], key);
    FlattenAppend([rows[i]], rows[i + 1..], key);
    FlattenNoRow(rows[..i], key);
    FlattenNoRow(rows[i + 1..], key);
    assert Flatten([rows[i]], key) == Expand(rows[i].readings) + Flatten([], key);
  }
}
