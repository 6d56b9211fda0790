/**
 Collecting texts under headings and headings under labels: one row per person
 in order of first appearance, and a map of sections in label order.
 */
module Grouping {
  import opened Sequences

  // ----- rows per person

  datatype Item<H, X> = Item(person: nat, header: H, text: X)

  datatype Row<H, X> = Row(person: nat, header: H, texts: seq<X>)

  /** The position of the row of a person, or the number of rows. */
  function FindRow<H, X>(rows: seq<Row<H, X>>, person: nat): (k: nat)
    ensures k <= |rows|
    ensures k < |rows| ==> rows[k].person == person
    ensures forall i :: 0 <= i < k ==> rows[i].person != person
  {
    if rows == [] || rows[0].person == person then 0 else 1 + FindRow(rows[1..], person)
  }

  /** Under the row of the person, or under a new row at the end. */
  function PushUnder<H, X>(rows: seq<Row<H, X>>, item: Item<H, X>): seq<Row<H, X>> {
    var k := FindRow(rows, item.person);
    if k < |rows| then rows[k := rows[k].(texts := rows[k].texts + [item.text])]
    else rows + [Row(item.person, item.header, [item.text])]
  }

  function RowsOf<H, X>(items: seq<Item<H, X>>): seq<Row<H, X>> {
    if items == [] then [] else PushUnder(RowsOf(items[..|items| - 1]), items[|items| - 1])
  }

  /** The texts about one person, in order. */
  function TextsOf<H, X>(items: seq<Item<H, X>>, person: nat): seq<X> {
    if items == [] then []
    else
      var n := |items| - 1;
      TextsOf(items[..n], person) + if items[n].person == person then [items[n].text] else []
  }

  /** The header that comes with the first item about a person. */
  function FirstHeader<H, X>(items: seq<Item<H, X>>, person: nat): Option<H> {
    if items == [] then None
    else
      var n := |items| - 1;
      if FirstHeader(items[..n], person).Some? then FirstHeader(items[..n], person)
      else if items[n].person == person then Some(items[n].header) else None
  }

  /** One row per person with an item, with the person's first header and all
      of the person's texts. */
  ghost predicate AreRowsOf<H, X>(items: seq<Item<H, X>>, rows: seq<Row<H, X>>) {
    && (forall i, j :: 0 <= i < j < |rows| ==> rows[i].person != rows[j].person)
    && (forall i :: 0 <= i < |rows| ==>
          && FirstHeader(items, rows[i].person) == Some(rows[i].header)
          && rows[i].texts == TextsOf(items, rows[i].person) != [])
    && (forall p :: FindRow(rows, p) < |rows| <==> FirstHeader(items, p).Some?)
  }

  lemma {:induction false} NoHeaderNoTexts<H, X>(items: seq<Item<H, X>>, person: nat)
    ensures FirstHeader(items, person).Some? <==> TextsOf(items, person) != []
    ensures FirstHeader(items, person).Some? <==> exists i :: 0 <= i < |items| && items[i].person == person
  {
    if items == [] {
    } else {
      var n := |items| - 1;
      NoHeaderNoTexts(items[..n], person);
      assert forall i :: 0 <= i < n ==> items[..n][i] == items[i];
    }
  }

  lemma FindPushed<H, X>(rows: seq<Row<H, X>>, item: Item<H, X>, p: nat)
    ensures FindRow(PushUnder(rows, item), p) < |PushUnder(rows, item)|
            <==> FindRow(rows, p) < |rows| || p == item.person
  {
    var after, k := PushUnder(rows, item), FindRow(rows, item.person);
    assert after[k].person == item.person;
    var j := FindRow(rows, p);
    if j < |rows| {
      assert after[j].person == p;
    }
  }

  lemma LastItem<H, X>(items: seq<Item<H, X>>, item: Item<H, X>, p: nat)
    ensures TextsOf(items + [item], p) == TextsOf(items, p) + if item.person == p then [item.text] else []
    ensures FirstHeader(items + [item], p)
            == if FirstHeader(items, p).Some? then FirstHeader(items, p)
               else if item.person == p then Some(item.header) else None
  {
    assert (items + [item])[..|items|] == items;
  }

  lemma PushIsRight<H, X>(items: seq<Item<H, X>>, rows: seq<Row<H, X>>, item: Item<H, X>)
    requires AreRowsOf(items, rows)
    ensures AreRowsOf(items + [item], PushUnder(rows, item))
  {
    hide FindRow, TextsOf, FirstHeader;
    NoHeaderNoTexts(items, item.person);
    var after, k := PushUnder(rows, item), FindRow(rows, item.person);
    assert forall i :: 0 <= i < |rows| && i != k ==> after[i] == rows[i];
    forall i | 0 <= i < |after|
      ensures FirstHeader(items + [item], after[i].person) == Some(after[i].header)
      ensures after[i].texts == TextsOf(items + [item], after[i].person) != []
    {
      LastItem(items, item, after[i].person);
      if i != k {
        assert after[i].person != item.person;
      }
    }
    forall p ensures FindRow(after, p) < |after| <==> FirstHeader(items + [item], p).Some? {
      LastItem(items, item, p);
      FindPushed(rows, item, p);
    }
  }

  lemma {:induction false} RowsAreRight<H, X>(items: seq<Item<H, X>>)
    ensures AreRowsOf(items, RowsOf(items))
  {
    if items == [] {
    } else {
      var n := |items| - 1;
      RowsAreRight(items[..n]);
      PushIsRight(items[..n], RowsOf(items[..n]), items[n]);
      assert items == items[..n] + [items[n]];
    }
  }

  // ----- headers keep the order of the items

  predicate ItemsAscend<H, X>(items: seq<Item<H, X>>, key: H -> int) {
    forall i, j :: 0 <= i < j < |items| ==> key(items[i].header) <= key(items[j].header)
  }

  predicate RowsAscend<H, X>(rows: seq<Row<H, X>>, key: H -> int) {
    forall i, j :: 0 <= i < j < |rows| ==> key(rows[i].header) <= key(rows[j].header)
  }

  lemma {:induction false} RowsAreBounded<H, X>(items: seq<Item<H, X>>, key: H -> int, bound: int)
    requires forall i :: 0 <= i < |items| ==> key(items[i].header) <= bound
    ensures forall k :: 0 <= k < |RowsOf(items)| ==> key(RowsOf(items)[k].header) <= bound
  {
    if items == [] {
    } else {
      RowsAreBounded(items[..|items| - 1], key, bound);
    }
  }

  lemma {:induction false} RowsKeepOrder<H, X>(items: seq<Item<H, X>>, key: H -> int)
    requires ItemsAscend(items, key)
    ensures RowsAscend(RowsOf(items), key)
  {
    if items == [] {
    } else {
      var n := |items| - 1;
      var before := items[..n];
      assert forall i :: 0 <= i < n ==> before[i] == items[i];
      RowsKeepOrder(before, key);
      RowsAreBounded(before, key, key(items[n].header));
    }
  }

  // ----- nothing is lost

  function AllTexts<H, X>(rows: seq<Row<H, X>>): multiset<X> {
    if rows == [] then multiset{}
    else AllTexts(rows[..|rows| - 1]) + multiset(rows[|rows| - 1].texts)
  }

  lemma {:induction false} AllTextsUpdate<H, X>(rows: seq<Row<H, X>>, k: nat, text: X)
    requires k < |rows|
    ensures AllTexts(rows[k := rows[k].(texts := rows[k].texts + [text])]) == AllTexts(rows) + multiset{text}
  {
    var n := |rows| - 1;
    var after := rows[k := rows[k].(texts := rows[k].texts + [text])];
    if k < n {
      AllTextsUpdate(rows[..n], k, text);
      assert after[..n] == rows[..n][k := rows[k].(texts := rows[k].texts + [text])];
    } else {
      assert after[..n] == rows[..n];
    }
  }

  lemma PushKeepsTexts<H, X>(rows: seq<Row<H, X>>, item: Item<H, X>)
    ensures AllTexts(PushUnder(rows, item)) == AllTexts(rows) + multiset{item.text}
  {
    var k := FindRow(rows, item.person);
    if k < |rows| {
      AllTextsUpdate(rows, k, item.text);
    } else {
      assert PushUnder(rows, item)[..|rows|] == rows;
    }
  }

  // ----- a map in label order

  /** The order of texts: code point by code point, a prefix first. */
  predicate Before(a: string, b: string) {
    b != "" && (a == "" || a[0] < b[0] || (a[0] == b[0] && Before(a[1..], b[1..])))
  }

  lemma {:induction false} BeforeIsTotal(a: string, b: string)
    ensures a == b || Before(a, b) || Before(b, a)
    ensures !(Before(a, b) && Before(b, a)) && !Before(a, a)
  {
    if a != "" && b != "" && a[0] == b[0] {
      BeforeIsTotal(a[1..], b[1..]);
      assert a[1..] == b[1..] ==> a == [a[0]] + a[1..] && b == [b[0]] + b[1..];
    }
    if a == "" {
    } else {
      BeforeIsTotal(a[1..], a[1..]);
    }
  }

  lemma {:induction false} BeforeIsTransitive(a: string, b: string, c: string)
    requires Before(a, b) && Before(b, c)
    ensures Before(a, c)
  {
    if a != "" && a[0] == b[0] && b[0] == c[0] {
      BeforeIsTransitive(a[1..], b[1..], c[1..]);
    }
  }

  datatype Section<V> = Section(key: string, content: V)

  predicate LabelsAscend<V>(m: seq<Section<V>>) {
    forall i, j :: 0 <= i < j < |m| ==> Before(m[i].key, m[j].key)
  }

  function Lookup<V>(m: seq<Section<V>>, l: string): Option<V> {
    if m == [] then None else if m[0].key == l then Some(m[0].content) else Lookup(m[1..], l)
  }

  /** Replaces the content under a label, or adds it where the label belongs. */
  function Put<V>(m: seq<Section<V>>, l: string, content: V): (r: seq<Section<V>>)
  {
    if m == [] then [Section(l, content)]
    else if m[0].key == l then [Section(l, content)] + m[1..]
    else if Before(l, m[0].key) then [Section(l, content)] + m
    else [m[0]] + Put(m[1..], l, content)
  }

  lemma {:induction false} PutMembers<V>(m: seq<Section<V>>, l: string, content: V, k: nat)
    requires k < |Put(m, l, content)|
    ensures Put(m, l, content)[k].key == l
            || exists i :: 0 <= i < |m| && m[i].key == Put(m, l, content)[k].key
  {
    if m == [] {
    } else {
      var r := Put(m, l, content);
      if m[0].key == l {
        assert k > 0 ==> r[k] == m[k];
      } else if Before(l, m[0].key) {
        assert k > 0 ==> r[k] == m[k - 1];
      } else if k > 0 {
        PutMembers(m[1..], l, content, k - 1);
        assert r[k] == Put(m[1..], l, content)[k - 1];
        if Put(m[1..], l, content)[k - 1].key != l {
          var i :| 0 <= i < |m[1..]| && m[1..][i].key == r[k].key;
          assert m[i + 1].key == r[k].key;
        }
      } else {
        assert m[0].key == r[0].key;
      }
    }
  }

  lemma {:induction false} PutKeepsOrder<V>(m: seq<Section<V>>, l: string, content: V)
    requires LabelsAscend(m)
    ensures LabelsAscend(Put(m, l, content))
  {
    if m == [] {
    } else {
      var r := Put(m, l, content);
      if m[0].key == l {
        assert forall i :: 1 <= i < |m| ==> r[i] == m[i];
      } else if Before(l, m[0].key) {
        forall j | 1 <= j < |r| ensures Before(l, r[j].key) {
          assert r[j] == m[j - 1];
          if j > 1 {
            BeforeIsTransitive(l, m[0].key, m[j - 1].key);
          }
        }
      } else {
        PutKeepsOrder(m[1..], l, content);
        BeforeIsTotal(l, m[0].key);
        forall j | 1 <= j < |r| ensures Before(m[0].key, r[j].key) {
          assert r[j] == Put(m[1..], l, content)[j - 1];
          PutMembers(m[1..], l, content, j - 1);
        }
      }
    }
  }

  lemma {:induction false} LookupBeyond<V>(m: seq<Section<V>>, l: string)
    requires forall i :: 0 <= i < |m| ==> Before(l, m[i].key)
    ensures Lookup(m, l) == None
  {
    if m == [] {
    } else {
      BeforeIsTotal(l, l);
      LookupBeyond(m[1..], l);
    }
  }

  lemma {:induction false} LookupPut<V>(m: seq<Section<V>>, l: string, content: V, k: string)
    requires LabelsAscend(m)
    ensures Lookup(Put(m, l, content), k) == if k == l then Some(content) else Lookup(m, k)
  {
    if m == [] {
    } else {
      var r := Put(m, l, content);
      if m[0].key == l {
        assert r[1..] == m[1..];
      } else if Before(l, m[0].key) {
        assert r[1..] == m;
      } else {
        assert r[1..] == Put(m[1..], l, content);
        LookupPut(m[1..], l, content, k);
      }
    }
  }

  /** The label of a section leads to it. */
  lemma {:induction false} LookupFinds<V>(m: seq<Section<V>>, i: nat)
    requires LabelsAscend(m) && i < |m|
    ensures Lookup(m, m[i].key) == Some(m[i].content)
  {
    if i == 0 {
    } else {
      assert Before(m[0].key, m[i].key);
      BeforeIsTotal(m[0].key, m[i].key);
      LookupFinds(m[1..], i - 1);
    }
  }

  /** What all sections hold together, by a measure of each. */
  function Total<V, X>(m: seq<Section<V>>, held: V -> multiset<X>): multiset<X> {
    if m == [] then multiset{} else held(m[0].content) + Total(m[1..], held)
  }

  lemma {:induction false} TotalPut<V, X>(m: seq<Section<V>>, l: string, content: V, held: V -> multiset<X>,
                                          added: multiset<X>)
    requires LabelsAscend(m)
    requires held(content) == (match Lookup(m, l) case None => multiset{} case Some(v) => held(v)) + added
    ensures Total(Put(m, l, content), held) == Total(m, held) + added
  {
    if m != [] {
      var r := Put(m, l, content);
      if m[0].key == l {
        assert r[1..] == m[1..];
      } else if Before(l, m[0].key) {
        assert r[1..] == m;
        forall i | 0 <= i < |m| ensures Before(l, m[i].key) {
          if i > 0 {
            BeforeIsTransitive(l, m[0].key, m[i].key);
          }
        }
        LookupBeyond(m, l);
      } else {
        assert r[1..] == Put(m[1..], l, content);
        TotalPut(m[1..], l, content, held, added);
      }
    } else {
      assert Put(m, l, content)[1..] == [];
    }
  }

  lemma {:induction false} TotalConcat<V, X>(a: seq<Section<V>>, b: seq<Section<V>>, held: V -> multiset<X>)
    ensures Total(a + b, held) == Total(a, held) + Total(b, held)
  {
    if a == [] {
      assert a + b == b;
    } else {
      TotalConcat(a[1..], b, held);
      assert (a + b)[1..] == a[1..] + b;
    }
  }

  lemma TotalMoves<V, X>(a: seq<Section<V>>, b: seq<Section<V>>, c: seq<Section<V>>, held: V -> multiset<X>)
    ensures Total(b + (a + c), held) == Total(a + (b + c), held)
  {
    hide Total;
    TotalConcat(a, b + c, held);
    TotalConcat(b, c, held);
    TotalConcat(a, c, held);
    TotalConcat(b, a + c, held);
  }

  // ----- filling the map entry by entry

  /** How a section grows: from its default, one entry at a time. */
  function Fold<V, X>(xs: seq<X>, empty: V, push: (V, X) -> V): V {
    if xs == [] then empty else push(Fold(xs[..|xs| - 1], empty, push), xs[|xs| - 1])
  }

  /** The entries that carry a label. */
  function LabelIs<X>(labelOf: X -> string, l: string): X -> bool {
    x => labelOf(x) == l
  }

  /** The section under a label, the default one for a new label. */
  function SectionAt<V>(m: seq<Section<V>>, l: string, empty: V): V {
    match Lookup(m, l) case None => empty case Some(v) => v
  }

  /** What belongs under a label: nothing, or a section grown from exactly the
      entries with that label, in order. */
  function Grown<V, X>(xs: seq<X>, labelOf: X -> string, empty: V, push: (V, X) -> V, l: string): Option<V> {
    var mine := Filter(xs, LabelIs(labelOf, l));
    if mine == [] then None else Some(Fold(mine, empty, push))
  }

  /** One section per label that occurs, in label order. */
  ghost predicate AreSectionsOf<V, X>(m: seq<Section<V>>, xs: seq<X>, labelOf: X -> string,
                                      empty: V, push: (V, X) -> V)
  {
    LabelsAscend(m) && forall l :: Lookup(m, l) == Grown(xs, labelOf, empty, push, l)
  }

  lemma GrownAppend<V, X>(xs: seq<X>, x: X, labelOf: X -> string, empty: V, push: (V, X) -> V, l: string)
    ensures Grown(xs + [x], labelOf, empty, push, l)
            == if labelOf(x) != l then Grown(xs, labelOf, empty, push, l)
               else match Grown(xs, labelOf, empty, push, l)
                    case None => Some(push(empty, x))
                    case Some(v) => Some(push(v, x))
  {
    var mine := Filter(xs, LabelIs(labelOf, l));
    assert (xs + [x])[..|xs|] == xs;
    assert (mine + [x])[..|mine|] == mine;
    assert Fold([], empty, push) == empty;
  }

  lemma NoSections<V, X>(xs: seq<X>, labelOf: X -> string, empty: V, push: (V, X) -> V)
    requires xs == []
    ensures AreSectionsOf<V, X>([], xs, labelOf, empty, push)
  {}

  /** Pushing an entry to the section under its label keeps the map right. */
  lemma NextEntry<V, X>(m: seq<Section<V>>, xs: seq<X>, x: X, labelOf: X -> string, empty: V, push: (V, X) -> V)
    requires AreSectionsOf(m, xs, labelOf, empty, push)
    ensures var l := labelOf(x);
            AreSectionsOf(Put(m, l, push(SectionAt(m, l, empty), x)), xs + [x], labelOf, empty, push)
  {
    hide Put, Lookup, Before, Grown;
    var l := labelOf(x);
    var content := push(SectionAt(m, l, empty), x);
    PutKeepsOrder(m, l, content);
    forall k ensures Lookup(Put(m, l, content), k) == Grown(xs + [x], labelOf, empty, push, k) {
      LookupPut(m, l, content, k);
      GrownAppend(xs, x, labelOf, empty, push, k);
    }
  }

  lemma {:induction false} LookupIsIn<V>(m: seq<Section<V>>, l: string)
    ensures Lookup(m, l).Some? ==> exists i :: 0 <= i < |m| && m[i] == Section(l, Lookup(m, l).value)
  {
    if m != [] && m[0].key != l {
      LookupIsIn(m[1..], l);
      assert forall i :: 0 <= i < |m[1..]| ==> m[1..][i] == m[i + 1];
    } else if m != [] {
      assert m[0] == Section(l, Lookup(m, l).value);
    }
  }
}
