/**
 * The utilization mapper of the customer card (the `timeline` computed in
 * `CustomerCard`, frontend/src/components/CustomerCard.jsx): raw transaction
 * records are filtered and turned into dated utilization points.
 */
module Timeline {

  /** The JavaScript values a transaction field can hold. Numbers are finite and exact. */
  datatype JsValue =
    | Undefined
    | Null
    | Boolean(b: bool)
    | Number(n: real)
    | Text(s: string)
    | DateObject(time: int)  // a `Date` instance, by its timestamp
    | OtherObject

  /**
   * One element of the card's `data` array: an object with the two fields the
   * mapper reads, or any other value (null, undefined, a number, ...), whose
   * fields read as undefined.
   */
  datatype RawEntry =
    | Transaction(availableMoney: JsValue, transactionDateTime: JsValue)
    | NotAnObject

  /** The card's `data` prop (absent means its default, the empty array). */
  datatype RawData = Array(items: seq<RawEntry>) | NotAnArray

  /** One point of the timeline. */
  datatype Point = Point(date: string, availableMoney: real, utilization: real)

  /**
   * The share of the credit limit in use: `(limit - available) / limit`,
   * 0 for a limit that is not positive, and never below 0.
   */
  function Utilization(creditLimit: real, availableMoney: real): (u: real)
    ensures u >= 0.0
    ensures creditLimit <= 0.0 ==> u == 0.0
    ensures creditLimit > 0.0 ==>
      u * creditLimit == if availableMoney < creditLimit then creditLimit - availableMoney else 0.0
    ensures creditLimit > 0.0 && availableMoney >= creditLimit ==> u == 0.0
    ensures creditLimit > 0.0 && availableMoney == 0.0 ==> u == 1.0
    ensures creditLimit > 0.0 && availableMoney >= 0.0 ==> u <= 1.0
  {
    var used := creditLimit - availableMoney;
    var raw := if creditLimit > 0.0 then used / creditLimit else 0.0;
    if raw > 0.0 then raw else 0.0
  }

  /** More money available never means more utilization. */
  lemma UtilizationAntitone(creditLimit: real, m1: real, m2: real)
    requires m1 <= m2
    ensures Utilization(creditLimit, m2) <= Utilization(creditLimit, m1)
  {
    if creditLimit > 0.0 {
      var u1, u2 := Utilization(creditLimit, m1), Utilization(creditLimit, m2);
      var used1 := if m1 < creditLimit then creditLimit - m1 else 0.0;
      var used2 := if m2 < creditLimit then creditLimit - m2 else 0.0;
      assert u1 * creditLimit == used1;
      assert u2 * creditLimit == used2;
      assert used2 <= used1;
      CancelPositive(u2, u1, creditLimit);
    }
  }

  lemma CancelPositive(a: real, b: real, c: real)
    requires c > 0.0 && a * c <= b * c
    ensures a <= b
  {
  }

  /** The filter: a record is kept iff it is an object with a numeric amount and a string or `Date` timestamp. */
  predicate Kept(e: RawEntry) {
    && e.Transaction?
    && e.availableMoney.Number?
    && (e.transactionDateTime.Text? || e.transactionDateTime.DateObject?)
  }

  /** The map step for one kept record; `toIso` stands for `Date.prototype.toISOString`. */
  function ToPoint(e: RawEntry, creditLimit: real, toIso: int -> string): Point
    requires Kept(e)
  {
    var date := match e.transactionDateTime
      case Text(s) => s
      case DateObject(t) => toIso(t);
    Point(date, e.availableMoney.n, Utilization(creditLimit, e.availableMoney.n))
  }

  /** `data.filter(...)`. */
  function KeptEntries(items: seq<RawEntry>): (kept: seq<RawEntry>)
    ensures |kept| <= |items|
    ensures forall e | e in kept :: Kept(e) && e in items
  {
    if items == [] then []
    else if Kept(items[0]) then [items[0]] + KeptEntries(items[1..])
    else KeptEntries(items[1..])
  }

  /** The timeline: filter, then map each kept record to a point; a non-array gives no points. */
  function TimelineOf(data: RawData, creditLimit: real, toIso: int -> string): (timeline: seq<Point>)
    ensures data.NotAnArray? ==> timeline == []
    ensures data.Array? ==> |timeline| <= |data.items|
    ensures forall k :: 0 <= k < |timeline| ==> timeline[k].utilization >= 0.0
  {
    match data
    case NotAnArray => []
    case Array(items) =>
      var kept := KeptEntries(items);
      seq(|kept|, i requires 0 <= i < |kept| => ToPoint(kept[i], creditLimit, toIso))
  }

  /** Filtering distributes over concatenation: the kept records stay in their input order. */
  lemma {:induction false} KeptEntriesAppend(a: seq<RawEntry>, b: seq<RawEntry>)
    ensures KeptEntries(a + b) == KeptEntries(a) + KeptEntries(b)
  {
    if a == [] {
      assert a + b == b;
    } else {
      assert (a + b)[0] == a[0];
      assert (a + b)[1..] == a[1..] + b;
      KeptEntriesAppend(a[1..], b);
    }
  }

  /** The timeline of two runs of records is the timeline of the first followed by that of the second. */
  lemma TimelineAppend(a: seq<RawEntry>, b: seq<RawEntry>, creditLimit: real, toIso: int -> string)
    ensures TimelineOf(Array(a + b), creditLimit, toIso) ==
      TimelineOf(Array(a), creditLimit, toIso) + TimelineOf(Array(b), creditLimit, toIso)
  {
    KeptEntriesAppend(a, b);
  }

  /** The filter keeps exactly the well-formed records. */
  lemma {:induction false} KeptEntriesExact(items: seq<RawEntry>, e: RawEntry)
    ensures e in KeptEntries(items) <==> e in items && Kept(e)
  {
    if items != [] {
      KeptEntriesExact(items[1..], e);
      assert items == [items[0]] + items[1..];
    }
  }

  /** A sequence is its part before `i`, its element at `i` and its part after. */
  lemma SplitAt<T>(s: seq<T>, i: nat)
    requires i < |s|
    ensures s == s[..i] + ([s[i]] + s[i + 1..])
  {
    assert [s[i]] + s[i + 1..] == s[i..];
  }

  /** Removing a malformed record leaves the kept records as they were; removing a well-formed one drops just it. */
  lemma DropOneKept(items: seq<RawEntry>, i: nat)
    requires i < |items|
    ensures KeptEntries(items) ==
      KeptEntries(items[..i]) + (if Kept(items[i]) then [items[i]] else []) + KeptEntries(items[i + 1..])
    ensures KeptEntries(items[..i] + items[i + 1..]) == KeptEntries(items[..i]) + KeptEntries(items[i + 1..])
  {
    var a, x, b := items[..i], [items[i]], items[i + 1..];
    var kx := if Kept(items[i]) then [items[i]] else [];
    assert KeptEntries(x) == kx by {
      assert x[1..] == [];
    }
    SplitAt(items, i);
    KeptEntriesAppend(a, x + b);
    KeptEntriesAppend(x, b);
    assert KeptEntries(items) == KeptEntries(a) + (kx + KeptEntries(b));
    ConcatAssoc(KeptEntries(a), kx, KeptEntries(b));
    KeptEntriesAppend(a, b);
  }

  /** Concatenation is associative. */
  lemma ConcatAssoc<T>(p: seq<T>, q: seq<T>, r: seq<T>)
    ensures p + (q + r) == p + q + r
  {
  }

  /** Removing a malformed record leaves the timeline as it was; removing a well-formed one shortens it by one. */
  lemma DropOne(items: seq<RawEntry>, i: nat, creditLimit: real, toIso: int -> string)
    requires i < |items|
    ensures !Kept(items[i]) ==>
      TimelineOf(Array(items[..i] + items[i + 1..]), creditLimit, toIso) == TimelineOf(Array(items), creditLimit, toIso)
    ensures Kept(items[i]) ==>
      |TimelineOf(Array(items[..i] + items[i + 1..]), creditLimit, toIso)| + 1 == |TimelineOf(Array(items), creditLimit, toIso)|
  {
    DropOneKept(items, i);
    var rest := items[..i] + items[i + 1..];
    if Kept(items[i]) {
      assert |KeptEntries(rest)| + 1 == |KeptEntries(items)|;
    } else {
      assert KeptEntries(rest) == KeptEntries(items);
    }
  }

  /**
   * Every point of the timeline comes from a kept record of the input: its
   * date is the record's string (or the ISO form of its `Date`), its amount is
   * copied and its utilization is that amount's share of the limit.
   */
  lemma TimelinePointsFromRecords(items: seq<RawEntry>, creditLimit: real, toIso: int -> string, k: nat)
    requires k < |TimelineOf(Array(items), creditLimit, toIso)|
    ensures var p := TimelineOf(Array(items), creditLimit, toIso)[k];
      exists e :: e in items && Kept(e)
        && p.date == (if e.transactionDateTime.Text? then e.transactionDateTime.s else toIso(e.transactionDateTime.time))
        && p.availableMoney == e.availableMoney.n
        && p.utilization == Utilization(creditLimit, e.availableMoney.n)
  {
    var e := KeptEntries(items)[k];
    assert e in KeptEntries(items);
  }

  /** Every well-formed record of the input reaches the timeline. */
  lemma KeptRecordsReachTimeline(items: seq<RawEntry>, creditLimit: real, toIso: int -> string, e: RawEntry)
    requires e in items && Kept(e)
    ensures ToPoint(e, creditLimit, toIso) in TimelineOf(Array(items), creditLimit, toIso)
  {
    KeptEntriesExact(items, e);
    var k :| 0 <= k < |KeptEntries(items)| && KeptEntries(items)[k] == e;
    assert TimelineOf(Array(items), creditLimit, toIso)[k] == ToPoint(e, creditLimit, toIso);
  }
}
