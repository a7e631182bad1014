/**
 The DynamoDB value codec: Python values to attribute values and back.

 An attribute value is itself a dictionary with one type tag, so the wire form is kept
 untyped here: the decoder has to tell tags from ordinary keys as the adapter does.
 */
module DynamoCodec {
  import opened Prelude
  import Decimal

  datatype Py =
    | Str(s: string)
    | Bool(b: bool)
    | Null
    | Int(n: int)
    | Other(text: string)        // a date or any other object: written as its text
    | List(items: seq<Py>)
    | Tuple(items: seq<Py>)
    | Dict(entries: map<string, Py>)

  datatype Wire =
    | WText(text: string)
    | WFlag(flag: bool)
    | WList(elements: seq<Wire>)
    | WDict(members: map<string, Wire>)

  /** The first integer too long for a `Decimal` remainder at the default precision of 28 digits. */
  const DECIMAL_LIMIT := 10_000_000_000_000_000_000_000_000_000

  function Tagged(tag: string, w: Wire): Wire { WDict(map[tag := w]) }

  function SerializeItem(item: map<string, Py>): map<string, Wire> {
    map k | k in item :: Serialize(item[k])
  }

  function Texts(items: seq<Py>): seq<Wire>
    requires forall v :: v in items ==> v.Str?
  {
    seq(|items|, i requires 0 <= i < |items| => WText(items[i].s))
  }

  function Numbers(items: seq<Py>): seq<Wire>
    requires forall v :: v in items ==> v.Int?
  {
    seq(|items|, i requires 0 <= i < |items| => WText(Decimal.Show(items[i].n)))
  }

  function Serialize(v: Py): Wire {
    match v
    case Bool(b) => Tagged("BOOL", WFlag(b))
    case Str(s) => Tagged("S", WText(s))
    case Other(text) => Tagged("S", WText(text))
    case Int(n) => Tagged("N", WText(Decimal.Show(n)))
    case Dict(entries) => Tagged("M", WDict(map k | k in entries :: Serialize(entries[k])))
    case Null => Tagged("NULL", WFlag(true))
    case _ =>
      if v.items == [] then Tagged("L", WList([]))
      else if forall e :: e in v.items ==> e.Str? then Tagged("SS", WList(Texts(v.items)))
      else if forall e :: e in v.items ==> e.Bool? then
        Tagged("L", WList(seq(|v.items|, i requires 0 <= i < |v.items| => Tagged("BOOL", WFlag(v.items[i].b)))))
      else if forall e :: e in v.items ==> e.Int? then Tagged("NS", WList(Numbers(v.items)))
      else Tagged("L", WList(seq(|v.items|, i requires 0 <= i < |v.items| => Serialize(v.items[i]))))
  }

  /** `int(Decimal(text))`; `None` stands for a raised error. */
  function ReadNumber(w: Wire): Option<Py> {
    if !w.WText? then None
    else match Decimal.Read(w.text) {
      case None => None
      case Some(n) => if -DECIMAL_LIMIT < n < DECIMAL_LIMIT then Some(Int(n)) else None
    }
  }

  function ReadText(w: Wire): Option<Py> {
    if w.WText? then Some(Str(w.text)) else None
  }

  function DeserializeItem(item: map<string, Wire>): Option<map<string, Py>> {
    if exists k :: k in item && Deserialize(item[k]).None? then None
    else Some(map k | k in item :: Deserialize(item[k]).value)
  }

  /** The tags are tried in the adapter's order; `None` stands for a raised error. */
  function Deserialize(w: Wire): Option<Py> {
    if !w.WDict? then None
    else if "S" in w.members then ReadText(w.members["S"])
    else if "N" in w.members then ReadNumber(w.members["N"])
    else if "BOOL" in w.members then
      if w.members["BOOL"].WFlag? then Some(Bool(w.members["BOOL"].flag)) else None
    else if "M" in w.members then
      if !w.members["M"].WDict? then None
      else
        var inner := w.members["M"].members;
        if exists k :: k in inner && Deserialize(inner[k]).None? then None
        else Some(Dict(map k | k in inner :: Deserialize(inner[k]).value))
    else if "L" in w.members then
      if !w.members["L"].WList? then None
      else
        var inner := w.members["L"].elements;
        if exists i :: 0 <= i < |inner| && Deserialize(inner[i]).None? then None
        else Some(List(seq(|inner|, i requires 0 <= i < |inner| => Deserialize(inner[i]).value)))
    else if "SS" in w.members then
      if !w.members["SS"].WList? then None
      else
        var inner := w.members["SS"].elements;
        if exists i :: 0 <= i < |inner| && ReadText(inner[i]).None? then None
        else Some(List(seq(|inner|, i requires 0 <= i < |inner| => ReadText(inner[i]).value)))
    else if "NS" in w.members then
      if !w.members["NS"].WList? then None
      else
        var inner := w.members["NS"].elements;
        if exists i :: 0 <= i < |inner| && ReadNumber(inner[i]).None? then None
        else Some(List(seq(|inner|, i requires 0 <= i < |inner| => ReadNumber(inner[i]).value)))
    else Some(Null)
  }

  /** Every integer anywhere in the value has at most 28 digits. */
  predicate FitsDecimal(v: Py) {
    match v
    case Int(n) => -DECIMAL_LIMIT < n < DECIMAL_LIMIT
    case List(items) => forall i :: 0 <= i < |items| ==> FitsDecimal(items[i])
    case Tuple(items) => forall i :: 0 <= i < |items| ==> FitsDecimal(items[i])
    case Dict(entries) => forall k :: k in entries ==> FitsDecimal(entries[k])
    case _ => true
  }

  /** The value with its tuples turned into lists and its dates and other objects into their texts. */
  function Plain(v: Py): Py {
    match v
    case Other(text) => Str(text)
    case List(items) => List(seq(|items|, i requires 0 <= i < |items| => Plain(items[i])))
    case Tuple(items) => List(seq(|items|, i requires 0 <= i < |items| => Plain(items[i])))
    case Dict(entries) => Dict(map k | k in entries :: Plain(entries[k]))
    case _ => v
  }

  function PlainItem(item: map<string, Py>): map<string, Py> {
    map k | k in item :: Plain(item[k])
  }

  /** No tuple, date or other object anywhere. */
  predicate IsPlain(v: Py) {
    match v
    case Other(_) => false
    case Tuple(_) => false
    case List(items) => forall i :: 0 <= i < |items| ==> IsPlain(items[i])
    case Dict(entries) => forall k :: k in entries ==> IsPlain(entries[k])
    case _ => true
  }

  /** What a value decodes to after encoding. */
  ghost predicate RoundTrips(v: Py) {
    Deserialize(Serialize(v)) == if FitsDecimal(v) then Some(Plain(v)) else None
  }

  lemma {:induction false} SerializedDict(entries: map<string, Py>)
    ensures Serialize(Dict(entries)) == Tagged("M", WDict(SerializeItem(entries)))
  {
    assert Serialize(Dict(entries)).members["M"].members == SerializeItem(entries);
  }

  lemma {:induction false} DeserializedDict(inner: map<string, Wire>)
    ensures Deserialize(Tagged("M", WDict(inner)))
         == match DeserializeItem(inner) { case None => None case Some(m) => Some(Dict(m)) }
  {
    if DeserializeItem(inner).Some? {
      assert Deserialize(Tagged("M", WDict(inner))).value.entries == DeserializeItem(inner).value;
    }
  }

  lemma {:induction false} ItemReadsBack(entries: map<string, Py>)
    requires forall k :: k in entries ==> RoundTrips(entries[k]) && FitsDecimal(entries[k])
    ensures DeserializeItem(SerializeItem(entries)) == Some(PlainItem(entries))
  {
    var wire := SerializeItem(entries);
    assert forall k :: k in wire ==> Deserialize(wire[k]) == Some(Plain(entries[k]));
    assert DeserializeItem(wire).Some?;
    assert DeserializeItem(wire).value == PlainItem(entries);
  }

  lemma {:induction false} ItemRaises(entries: map<string, Py>, k: string)
    requires k in entries && RoundTrips(entries[k]) && !FitsDecimal(entries[k])
    ensures DeserializeItem(SerializeItem(entries)) == None
  {
    assert Deserialize(SerializeItem(entries)[k]) == None;
  }

  lemma {:induction false} ItemRoundTrip(entries: map<string, Py>)
    requires forall k :: k in entries ==> RoundTrips(entries[k])
    ensures DeserializeItem(SerializeItem(entries)) == if FitsDecimal(Dict(entries)) then Some(PlainItem(entries)) else None
  {
    if FitsDecimal(Dict(entries)) {
      ItemReadsBack(entries);
    } else {
      var k :| k in entries && !FitsDecimal(entries[k]);
      ItemRaises(entries, k);
    }
  }

  lemma {:induction false} DictRoundTrip(entries: map<string, Py>)
    requires forall k :: k in entries ==> RoundTrips(entries[k])
    ensures RoundTrips(Dict(entries))
  {
    SerializedDict(entries);
    DeserializedDict(SerializeItem(entries));
    ItemRoundTrip(entries);
    assert Plain(Dict(entries)) == Dict(PlainItem(entries));
  }

  lemma {:induction false} NumbersRoundTrip(items: seq<Py>)
    requires items != [] && forall v :: v in items ==> v.Int?
    ensures Deserialize(Tagged("NS", WList(Numbers(items)))) == if FitsDecimal(List(items)) then Some(List(items)) else None
  {
    var inner := Numbers(items);
    forall i | 0 <= i < |items|
      ensures ReadNumber(inner[i]) == if FitsDecimal(items[i]) then Some(items[i]) else None
    {
      assert items[i] in items;
      Decimal.ReadShow(items[i].n);
    }
    if FitsDecimal(List(items)) {
      assert seq(|inner|, i requires 0 <= i < |inner| => ReadNumber(inner[i]).value) == items;
    } else {
      var i :| 0 <= i < |items| && !FitsDecimal(items[i]);
      assert ReadNumber(inner[i]) == None;
    }
  }

  lemma {:induction false} TextsRoundTrip(items: seq<Py>)
    requires forall v :: v in items ==> v.Str?
    ensures Deserialize(Tagged("SS", WList(Texts(items)))) == Some(List(items)) && FitsDecimal(List(items))
  {
    var inner := Texts(items);
    forall i | 0 <= i < |items| ensures ReadText(inner[i]) == Some(items[i]) {
      assert items[i] in items;
    }
    assert seq(|inner|, i requires 0 <= i < |inner| => ReadText(inner[i]).value) == items;
    assert forall i :: 0 <= i < |items| ==> items[i] in items;
  }

  lemma {:induction false} ElementsRoundTrip(items: seq<Py>, inner: seq<Wire>)
    requires |inner| == |items|
    requires forall i :: 0 <= i < |items| ==>
               Deserialize(inner[i]) == if FitsDecimal(items[i]) then Some(Plain(items[i])) else None
    ensures Deserialize(Tagged("L", WList(inner))) == if FitsDecimal(List(items)) then Some(Plain(List(items))) else None
  {
    if FitsDecimal(List(items)) {
      assert seq(|inner|, i requires 0 <= i < |inner| => Deserialize(inner[i]).value)
          == seq(|items|, i requires 0 <= i < |items| => Plain(items[i]));
    } else {
      var i :| 0 <= i < |items| && !FitsDecimal(items[i]);
      assert Deserialize(inner[i]) == None;
    }
  }

  lemma {:induction false} FlagsEncodeAlike(items: seq<Py>)
    requires forall v :: v in items ==> v.Bool?
    ensures seq(|items|, i requires 0 <= i < |items| => Tagged("BOOL", WFlag(items[i].b)))
         == seq(|items|, i requires 0 <= i < |items| => Serialize(items[i]))
  {
    var flags := seq(|items|, i requires 0 <= i < |items| => Tagged("BOOL", WFlag(items[i].b)));
    forall i | 0 <= i < |items| ensures flags[i] == Serialize(items[i]) {
      assert items[i] in items;
    }
  }

  /** Texts and numbers are plain already. */
  lemma {:induction false} ScalarsPlain(items: seq<Py>)
    requires forall v :: v in items ==> v.Str? || v.Int?
    ensures Plain(List(items)) == List(items)
  {
    assert forall i :: 0 <= i < |items| ==> items[i] in items;
    assert seq(|items|, i requires 0 <= i < |items| => Plain(items[i])) == items;
  }

  lemma {:induction false} TextListRoundTrip(items: seq<Py>)
    requires items != [] && forall v :: v in items ==> v.Str?
    ensures RoundTrips(List(items))
  {
    assert Serialize(List(items)) == Tagged("SS", WList(Texts(items)));
    TextsRoundTrip(items);
    ScalarsPlain(items);
  }

  lemma {:induction false} NumberListRoundTrip(items: seq<Py>)
    requires items != [] && forall v :: v in items ==> v.Int?
    ensures RoundTrips(List(items))
  {
    assert items[0] in items;
    assert Serialize(List(items)) == Tagged("NS", WList(Numbers(items)));
    NumbersRoundTrip(items);
    ScalarsPlain(items);
  }

  function Elements(items: seq<Py>): seq<Wire> {
    seq(|items|, i requires 0 <= i < |items| => Serialize(items[i]))
  }

  /** Every other list is written element by element; the flags of a flag list too. */
  lemma {:induction false} ElementwiseList(items: seq<Py>)
    requires items == [] || exists v :: v in items && !v.Str?
    requires items == [] || exists v :: v in items && !v.Int?
    ensures Serialize(List(items)) == Tagged("L", WList(Elements(items)))
  {
    if items == [] {
      assert Elements(items) == [];
    } else if forall v :: v in items ==> v.Bool? {
      FlagsEncodeAlike(items);
    }
  }

  lemma {:induction false} ElementListRoundTrip(items: seq<Py>)
    requires items == [] || exists v :: v in items && !v.Str?
    requires items == [] || exists v :: v in items && !v.Int?
    requires forall i :: 0 <= i < |items| ==> RoundTrips(items[i])
    ensures RoundTrips(List(items))
  {
    ElementwiseList(items);
    var inner := Elements(items);
    forall i | 0 <= i < |items|
      ensures Deserialize(inner[i]) == if FitsDecimal(items[i]) then Some(Plain(items[i])) else None
    {
      assert inner[i] == Serialize(items[i]) && RoundTrips(items[i]);
    }
    ElementsRoundTrip(items, inner);
  }

  /** The set, number and list encodings all decode to the list of the decoded elements. */
  lemma {:induction false} ListRoundTrip(items: seq<Py>)
    requires forall i :: 0 <= i < |items| ==> RoundTrips(items[i])
    ensures RoundTrips(List(items))
  {
    if items == [] || ((exists v :: v in items && !v.Str?) && exists v :: v in items && !v.Int?) {
      ElementListRoundTrip(items);
    } else if forall v :: v in items ==> v.Str? {
      TextListRoundTrip(items);
    } else {
      NumberListRoundTrip(items);
    }
  }

  /** A tuple is written and read as the list of its elements. */
  lemma {:induction false} TupleRoundTrip(items: seq<Py>)
    requires RoundTrips(List(items))
    ensures RoundTrips(Tuple(items))
  {
    assert Serialize(Tuple(items)) == Serialize(List(items));
    assert FitsDecimal(Tuple(items)) == FitsDecimal(List(items)) && Plain(Tuple(items)) == Plain(List(items));
  }

  /** For every nesting, what was encoded decodes to the plain form of the value exactly when all its integers
      fit; otherwise decoding raises. */
  lemma {:induction false} DecodeEncode(v: Py)
    ensures Deserialize(Serialize(v)) == if FitsDecimal(v) then Some(Plain(v)) else None
  {
    match v {
      case Int(n) => Decimal.ReadShow(n);
      case Dict(entries) =>
        forall k | k in entries ensures RoundTrips(entries[k]) {
          DecodeEncode(entries[k]);
        }
        DictRoundTrip(entries);
      case List(items) =>
        forall i | 0 <= i < |items| ensures RoundTrips(items[i]) {
          DecodeEncode(items[i]);
        }
        ListRoundTrip(items);
      case Tuple(items) =>
        forall i | 0 <= i < |items| ensures RoundTrips(items[i]) {
          DecodeEncode(items[i]);
        }
        ListRoundTrip(items);
        TupleRoundTrip(items);
      case _ =>
    }
  }

  lemma {:induction false} PlainElementsIff(items: seq<Py>)
    requires forall i :: 0 <= i < |items| ==> (Plain(items[i]) == items[i] <==> IsPlain(items[i]))
    ensures Plain(List(items)) == List(items) <==> IsPlain(List(items))
  {
    var plain := seq(|items|, i requires 0 <= i < |items| => Plain(items[i]));
    assert Plain(List(items)) == List(plain);
    if plain == items {
      forall i | 0 <= i < |items| ensures Plain(items[i]) == items[i] {
        assert plain[i] == items[i];
      }
    }
  }

  lemma {:induction false} PlainEntriesIff(entries: map<string, Py>)
    requires forall k :: k in entries ==> (Plain(entries[k]) == entries[k] <==> IsPlain(entries[k]))
    ensures Plain(Dict(entries)) == Dict(entries) <==> IsPlain(Dict(entries))
  {
    var plain := PlainItem(entries);
    assert Plain(Dict(entries)) == Dict(plain);
    if plain == entries {
      forall k | k in entries ensures Plain(entries[k]) == entries[k] {
        assert plain[k] == entries[k];
      }
    }
  }

  lemma {:induction false} PlainIff(v: Py)
    ensures Plain(v) == v <==> IsPlain(v)
  {
    match v {
      case Dict(entries) =>
        forall k | k in entries ensures Plain(entries[k]) == entries[k] <==> IsPlain(entries[k]) {
          PlainIff(entries[k]);
        }
        PlainEntriesIff(entries);
      case List(items) =>
        forall i | 0 <= i < |items| ensures Plain(items[i]) == items[i] <==> IsPlain(items[i]) {
          PlainIff(items[i]);
        }
        PlainElementsIff(items);
      case _ =>
    }
  }

  /** A value comes back as it was exactly when its integers fit and nothing in it is a tuple, a date or another object. */
  lemma {:induction false} ComesBackIff(v: Py)
    ensures Deserialize(Serialize(v)) == Some(v) <==> FitsDecimal(v) && IsPlain(v)
  {
    DecodeEncode(v);
    PlainIff(v);
  }

  /** The round trip of whole items. */
  lemma {:induction false} DecodeEncodeItem(item: map<string, Py>)
    ensures DeserializeItem(SerializeItem(item)) == if FitsDecimal(Dict(item)) then Some(PlainItem(item)) else None
  {
    forall k | k in item ensures RoundTrips(item[k]) {
      DecodeEncode(item[k]);
    }
    ItemRoundTrip(item);
  }

  // ---- what the encoding looks like ----

  /** One tag per scalar: numbers travel as their numerals. */
  lemma {:induction false} ScalarTags(s: string, b: bool, n: int)
    ensures Serialize(Str(s)) == WDict(map["S" := WText(s)])
    ensures Serialize(Other(s)) == WDict(map["S" := WText(s)])
    ensures Serialize(Bool(b)) == WDict(map["BOOL" := WFlag(b)])
    ensures Serialize(Int(n)) == WDict(map["N" := WText(Decimal.Show(n))])
    ensures Serialize(Null) == WDict(map["NULL" := WFlag(true)])
  {
  }

  /** A list of texts becomes a string set, one of numbers a number set, any other a list of its elements' forms. */
  lemma {:induction false} ListTags(items: seq<Py>)
    ensures var w := Serialize(List(items));
            && w.WDict? && |w.members| == 1
            && (if items != [] && (forall i :: 0 <= i < |items| ==> items[i].Str?) then
                  "SS" in w.members && w.members["SS"] == WList(seq(|items|, i requires 0 <= i < |items| => WText(items[i].s)))
                else if items != [] && (forall i :: 0 <= i < |items| ==> items[i].Int?) then
                  "NS" in w.members
                  && w.members["NS"] == WList(seq(|items|, i requires 0 <= i < |items| => WText(Decimal.Show(items[i].n))))
                else
                  "L" in w.members && w.members["L"] == WList(seq(|items|, i requires 0 <= i < |items| => Serialize(items[i]))))
  {
    assert forall i :: 0 <= i < |items| ==> items[i] in items;
    if items != [] && forall i :: 0 <= i < |items| ==> items[i].Str? {
      assert Serialize(List(items)) == Tagged("SS", WList(Texts(items)));
    } else if items != [] && forall i :: 0 <= i < |items| ==> items[i].Int? {
      assert items[0] in items;
      assert Serialize(List(items)) == Tagged("NS", WList(Numbers(items)));
    } else {
      ElementwiseList(items);
      assert Elements(items) == seq(|items|, i requires 0 <= i < |items| => Serialize(items[i]));
    }
  }

  /** A tuple of plain values comes back as the list of them, and a date as its text. */
  lemma {:induction false} TupleComesBackAsList(items: seq<Py>, text: string)
    requires FitsDecimal(List(items)) && IsPlain(List(items))
    ensures Deserialize(Serialize(Tuple(items))) == Some(List(items))
    ensures Deserialize(Serialize(Other(text))) == Some(Str(text))
  {
    DecodeEncode(Tuple(items));
    PlainIff(List(items));
    assert Plain(Tuple(items)) == Plain(List(items));
  }

  function Power10(k: nat): nat { if k == 0 then 1 else 10 * Power10(k - 1) }

  lemma {:induction false} DigitCount(n: nat, k: nat)
    requires k > 0
    ensures |Decimal.ShowNat(n)| <= k <==> n < Power10(k)
  {
    if k == 1 {
      assert Power10(1) == 10 * Power10(0);
    } else if n >= 10 {
      DigitCount(n / 10, k - 1);
      assert |Decimal.ShowNat(n)| == |Decimal.ShowNat(n / 10)| + 1;
      assert n / 10 < Power10(k - 1) <==> n < 10 * Power10(k - 1);
    } else {
      PowerAtLeast(k);
    }
  }

  lemma {:induction false} PowerAtLeast(k: nat)
    requires k > 0
    ensures Power10(k) >= 10
  {
    if k > 1 {
      PowerAtLeast(k - 1);
    }
  }

  lemma {:induction false} FourMore(k: nat)
    ensures Power10(k + 4) == 10_000 * Power10(k)
  {
    assert Power10(k + 2) == 10 * Power10(k + 1) == 100 * Power10(k);
    assert Power10(k + 4) == 10 * Power10(k + 3) == 100 * Power10(k + 2);
  }

  lemma {:induction false} Limit28()
    ensures Power10(28) == DECIMAL_LIMIT
  {
    assert Power10(0) == 1;
    FourMore(0);
    FourMore(4);
    FourMore(8);
    FourMore(12);
    FourMore(16);
    FourMore(20);
    FourMore(24);
  }

  /** An integer fits exactly when its numeral has at most 28 digits. */
  lemma {:induction false} FitsIffDigits(n: int)
    requires n >= 0
    ensures FitsDecimal(Int(n)) <==> |Decimal.Show(n)| <= 28
    ensures FitsDecimal(Int(-n)) <==> FitsDecimal(Int(n))
  {
    DigitCount(n, 28);
    Limit28();
  }
}
