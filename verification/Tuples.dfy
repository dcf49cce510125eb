/**
 Tuples: the fixed parts of the columns one after the other, then the texts of the VARCHAR
 columns, each found through an offset in its fixed part.
 */
module Tuples {
  import opened SlottedPage
  import opened SlottedOps
  import opened PageBytes

  // A fixed column takes a number of bytes; a VARCHAR column takes four, for the offset.
  datatype Column = Inlined(width: nat) | Varchar
  {
    function FixedLength(): nat {
      if Inlined? then width else 4
    }
  }

  datatype Value = Fixed(bytes: seq<byte>) | Text(bytes: seq<byte>) | NullText

  predicate Matches(c: Column, v: Value) {
    if c.Inlined? then v.Fixed? && |v.bytes| == c.width else !v.Fixed?
  }

  predicate Row(cols: seq<Column>, vals: seq<Value>) {
    |vals| == |cols| && forall i :: 0 <= i < |cols| ==> Matches(cols[i], vals[i])
  }

  // Offset of the fixed part of column i.
  function Offset(cols: seq<Column>, i: nat): nat
    requires i <= |cols|
  {
    if i == 0 then 0 else Offset(cols, i - 1) + cols[i - 1].FixedLength()
  }

  // The bytes that are set aside for a text. The length of a NULL is the largest 32-bit number, so
  // that adding four to it gives three.
  function Reserved(v: Value): nat {
    match v
    case Fixed(_) => 0
    case Text(b) => |b| + 4
    case NullText => 3
  }

  // Where the text of value i goes.
  function TextAt(cols: seq<Column>, vals: seq<Value>, i: nat): nat
    requires i <= |vals|
  {
    if i == 0 then Offset(cols, |cols|) else TextAt(cols, vals, i - 1) + Reserved(vals[i - 1])
  }

  function TupleSize(cols: seq<Column>, vals: seq<Value>): nat {
    TextAt(cols, vals, |vals|)
  }

  // The bytes that are written for a text: its length and its bytes, or the length of a NULL alone.
  function Image(v: Value): (b: seq<byte>)
    requires !v.Fixed? && (v.Text? ==> |v.bytes| <= MAX_INT)
    ensures |b| == if v.NullText? then 4 else 4 + |v.bytes|
  {
    if v.NullText? then Encode(-1) else Encode(|v.bytes|) + v.bytes
  }

  // --- no overlap ---

  lemma {:induction false} OffsetsApart(cols: seq<Column>, i: nat, j: nat)
    requires i < j <= |cols|
    ensures Offset(cols, i) + cols[i].FixedLength() <= Offset(cols, j)
    decreases j
  {
    if i < j - 1 {
      OffsetsApart(cols, i, j - 1);
    }
  }

  lemma {:induction false} TextsApart(cols: seq<Column>, vals: seq<Value>, i: nat, j: nat)
    requires i < j <= |vals|
    ensures Offset(cols, |cols|) <= TextAt(cols, vals, i)
    ensures TextAt(cols, vals, i) + Reserved(vals[i]) <= TextAt(cols, vals, j)
    decreases j
  {
    if i < j - 1 {
      TextsApart(cols, vals, i, j - 1);
    } else if i > 0 {
      TextsApart(cols, vals, i - 1, i);
    }
  }

  // The next text behind column i, or the number of columns.
  function NextText(vals: seq<Value>, i: nat): (j: nat)
    requires i < |vals|
    ensures i < j <= |vals| && (j < |vals| ==> !vals[j].Fixed?)
    ensures forall k :: i < k < j ==> vals[k].Fixed?
    decreases |vals| - i
  {
    if i + 1 == |vals| || !vals[i + 1].Fixed? then i + 1 else NextText(vals, i + 1)
  }

  lemma {:induction false} NothingBetween(cols: seq<Column>, vals: seq<Value>, i: nat, j: nat)
    requires i < |vals| && i < j <= NextText(vals, i)
    ensures TextAt(cols, vals, j) == TextAt(cols, vals, i) + Reserved(vals[i])
    decreases j
  {
    if i < j - 1 {
      NothingBetween(cols, vals, i, j - 1);
    }
  }

  // A row that fits 32-bit offsets.
  ghost predicate Storable(cols: seq<Column>, vals: seq<Value>) {
    Row(cols, vals) && TupleSize(cols, vals) <= MAX_INT
  }

  // Where column i and its text lie. The text of a NULL reaches one byte further than its place.
  lemma Places(cols: seq<Column>, vals: seq<Value>, i: nat)
    requires Storable(cols, vals) && i < |vals|
    ensures Offset(cols, i) + cols[i].FixedLength() <= Offset(cols, |cols|) <= TextAt(cols, vals, i)
    ensures TextAt(cols, vals, i) + Reserved(vals[i]) <= TupleSize(cols, vals)
    ensures vals[i].Text? ==> |vals[i].bytes| <= MAX_INT
  {
    OffsetsApart(cols, i, |cols|);
    TextsApart(cols, vals, i, |vals|);
  }

  // --- where the written bytes overlap or overrun ---

  // The bytes written for text i end before text j starts.
  ghost predicate EndsBefore(cols: seq<Column>, vals: seq<Value>, i: nat, j: nat)
    requires i < |vals| && j <= |vals| && !vals[i].Fixed? && (vals[i].Text? ==> |vals[i].bytes| <= MAX_INT)
  {
    TextAt(cols, vals, i) + |Image(vals[i])| <= TextAt(cols, vals, j)
  }

  // The bytes written for two texts are apart exactly unless the first is a NULL and the other is the
  // next text. With j the end of the row: a text stays inside the tuple unless it is a NULL and the
  // last text.
  lemma WrittenApart(cols: seq<Column>, vals: seq<Value>, i: nat, j: nat)
    requires Storable(cols, vals) && i < j <= |vals| && !vals[i].Fixed? && (j < |vals| ==> !vals[j].Fixed?)
    ensures vals[i].Text? ==> |vals[i].bytes| <= MAX_INT
    ensures EndsBefore(cols, vals, i, j) <==> !(vals[i].NullText? && NextText(vals, i) == j)
  {
    Places(cols, vals, i);
    TextsApart(cols, vals, i, j);
    var k := NextText(vals, i);
    if k == j {
      NothingBetween(cols, vals, i, j);
    } else {
      TextsApart(cols, vals, i, k);
      TextsApart(cols, vals, k, j);
    }
  }

  ghost predicate Followed(vals: seq<Value>, i: nat)
    requires i < |vals|
  {
    vals[i].NullText? && NextText(vals, i) < |vals|
  }

  // The bytes written for columns i and j, if both are texts, are apart.
  ghost predicate Apart(cols: seq<Column>, vals: seq<Value>, i: nat, j: nat)
    requires Storable(cols, vals) && i < j < |vals|
  {
    Places(cols, vals, i);
    !vals[i].Fixed? && !vals[j].Fixed? ==> EndsBefore(cols, vals, i, j)
  }

  // All written texts are apart exactly when no NULL text is followed by another text.
  lemma AllApartIff(cols: seq<Column>, vals: seq<Value>)
    requires Storable(cols, vals)
    ensures (forall i, j :: 0 <= i < j < |vals| ==> Apart(cols, vals, i, j))
            <==> forall i :: 0 <= i < |vals| ==> !Followed(vals, i)
  {
    if forall i :: 0 <= i < |vals| ==> !Followed(vals, i) {
      forall i, j | 0 <= i < j < |vals| ensures Apart(cols, vals, i, j) {
        assert !Followed(vals, i);
        if !vals[i].Fixed? && !vals[j].Fixed? {
          WrittenApart(cols, vals, i, j);
        }
      }
    } else {
      var i :| 0 <= i < |vals| && Followed(vals, i);
      WrittenApart(cols, vals, i, NextText(vals, i));
      assert !Apart(cols, vals, i, NextText(vals, i));
    }
  }

  // A text stays inside the tuple exactly when it is not a NULL and the last text of the row.
  lemma NullOverruns(cols: seq<Column>, vals: seq<Value>, i: nat)
    requires Storable(cols, vals) && i < |vals| && !vals[i].Fixed?
    ensures vals[i].Text? ==> |vals[i].bytes| <= MAX_INT
    ensures EndsBefore(cols, vals, i, |vals|) <==> !(vals[i].NullText? && NextText(vals, i) == |vals|)
  {
    WrittenApart(cols, vals, i, |vals|);
  }

  // --- what the write loop leaves ---

  ghost predicate Stretch(d: seq<byte>, at: nat, bytes: seq<byte>) {
    at + |bytes| <= |d| && d[at..at + |bytes|] == bytes
  }

  // What stands in the fixed part of column i.
  function FixedPart(cols: seq<Column>, vals: seq<Value>, i: nat): seq<byte>
    requires i < |vals| && TextAt(cols, vals, i) <= MAX_INT
  {
    if vals[i].Fixed? then vals[i].bytes else Encode(TextAt(cols, vals, i))
  }

  // What stands at the place of text i once the first n columns are written: the first byte of the
  // next text has replaced the last byte of a NULL.
  function TextPart(vals: seq<Value>, i: nat, n: nat): (b: seq<byte>)
    requires i < n <= |vals| && !vals[i].Fixed?
    requires forall k :: 0 <= k < |vals| && vals[k].Text? ==> |vals[k].bytes| <= MAX_INT
    ensures |b| == |Image(vals[i])|
  {
    var j := NextText(vals, i);
    if vals[i].NullText? && j < n then Image(vals[i])[3 := Image(vals[j])[0]] else Image(vals[i])
  }

  lemma ShortTexts(cols: seq<Column>, vals: seq<Value>)
    requires Storable(cols, vals)
    ensures forall k :: 0 <= k < |vals| && vals[k].Text? ==> |vals[k].bytes| <= MAX_INT
  {
    forall k | 0 <= k < |vals| && vals[k].Text? ensures |vals[k].bytes| <= MAX_INT {
      Places(cols, vals, k);
    }
  }

  // The memory holds column i, n columns being written.
  ghost predicate Holds(d: seq<byte>, cols: seq<Column>, vals: seq<Value>, i: nat, n: nat)
    requires Storable(cols, vals) && i < n <= |vals|
  {
    Places(cols, vals, i);
    ShortTexts(cols, vals);
    && Stretch(d, Offset(cols, i), FixedPart(cols, vals, i))
    && (!vals[i].Fixed? ==> Stretch(d, TextAt(cols, vals, i), TextPart(vals, i, n)))
  }

  ghost predicate AllHold(d: seq<byte>, cols: seq<Column>, vals: seq<Value>, n: nat)
    requires Storable(cols, vals) && n <= |vals|
  {
    forall j {:trigger Holds(d, cols, vals, j, n)} :: 0 <= j < n ==> Holds(d, cols, vals, j, n)
  }

  // A write elsewhere leaves a stretch alone.
  lemma StretchKept(d: seq<byte>, at: nat, bytes: seq<byte>, lo: nat, s: seq<byte>)
    requires at + |bytes| <= |d| && Stretch(d, lo, s) && (lo + |s| <= at || at + |bytes| <= lo)
    ensures Stretch(Write(d, at, bytes), lo, s)
  {}

  lemma StretchWritten(d: seq<byte>, at: nat, bytes: seq<byte>)
    requires at + |bytes| <= |d|
    ensures Stretch(Write(d, at, bytes), at, bytes)
  {}

  // A write that starts on the last byte of a stretch replaces that byte.
  lemma StretchClipped(d: seq<byte>, at: nat, bytes: seq<byte>, lo: nat, s: seq<byte>)
    requires bytes != [] && at + |bytes| <= |d| && |s| > 0 && Stretch(d, lo, s) && lo + |s| == at + 1
    ensures Stretch(Write(d, at, bytes), lo, s[|s| - 1 := bytes[0]])
  {
    var d2, r := Write(d, at, bytes), s[|s| - 1 := bytes[0]];
    forall k | 0 <= k < |r| ensures d2[lo + k] == r[k] {
      assert d[lo..lo + |s|][k] == s[k];
    }
  }

  // Writing the fixed part of column i leaves the columns before it.
  lemma FixedKeeps(d: seq<byte>, cols: seq<Column>, vals: seq<Value>, i: nat, j: nat, part: seq<byte>)
    requires Storable(cols, vals) && j < i < |vals| && Holds(d, cols, vals, j, i)
    requires |part| == cols[i].FixedLength() && Offset(cols, i) + |part| <= |d|
    ensures Holds(Write(d, Offset(cols, i), part), cols, vals, j, i)
  {
    Places(cols, vals, j);
    Places(cols, vals, i);
    ShortTexts(cols, vals);
    OffsetsApart(cols, j, i);
    StretchKept(d, Offset(cols, i), part, Offset(cols, j), FixedPart(cols, vals, j));
    if !vals[j].Fixed? {
      StretchKept(d, Offset(cols, i), part, TextAt(cols, vals, j), TextPart(vals, j, i));
    }
  }

  lemma TextPartKept(d: seq<byte>, cols: seq<Column>, vals: seq<Value>, i: nat, j: nat)
    requires Storable(cols, vals) && j < i < |vals| && !vals[i].Fixed? && !vals[j].Fixed?
    requires forall k :: 0 <= k < |vals| && vals[k].Text? ==> |vals[k].bytes| <= MAX_INT
    requires Stretch(d, TextAt(cols, vals, j), TextPart(vals, j, i)) && TextAt(cols, vals, i) + |Image(vals[i])| <= |d|
    ensures Stretch(Write(d, TextAt(cols, vals, i), Image(vals[i])), TextAt(cols, vals, j), TextPart(vals, j, i + 1))
  {
    var at, lo, s := TextAt(cols, vals, i), TextAt(cols, vals, j), TextPart(vals, j, i);
    WrittenApart(cols, vals, j, i);
    if vals[j].NullText? && NextText(vals, j) == i {
      NothingBetween(cols, vals, j, i);
      StretchClipped(d, at, Image(vals[i]), lo, s);
    } else {
      StretchKept(d, at, Image(vals[i]), lo, s);
    }
  }

  // Writing text i leaves the columns before it, up to the last byte of a NULL.
  lemma TextKeeps(d: seq<byte>, cols: seq<Column>, vals: seq<Value>, i: nat, j: nat)
    requires Storable(cols, vals) && j < i < |vals| && !vals[i].Fixed? && Holds(d, cols, vals, j, i)
    requires (vals[i].Text? ==> |vals[i].bytes| <= MAX_INT) && TextAt(cols, vals, i) + |Image(vals[i])| <= |d|
    ensures Holds(Write(d, TextAt(cols, vals, i), Image(vals[i])), cols, vals, j, i + 1)
  {
    Places(cols, vals, j);
    Places(cols, vals, i);
    ShortTexts(cols, vals);
    var at, bytes := TextAt(cols, vals, i), Image(vals[i]);
    StretchKept(d, at, bytes, Offset(cols, j), FixedPart(cols, vals, j));
    if !vals[j].Fixed? {
      TextPartKept(d, cols, vals, i, j);
    }
  }

  // --- the format of a tuple, without offsets ---

  ghost predicate Short(vals: seq<Value>) {
    forall k :: 0 <= k < |vals| && vals[k].Text? ==> |vals[k].bytes| <= MAX_INT
  }

  // What a value adds behind the fixed parts: a text its length and its bytes, a NULL three bytes.
  function Tail(v: Value): seq<byte>
    requires v.Text? ==> |v.bytes| <= MAX_INT
  {
    match v
    case Fixed(_) => []
    case Text(b) => Encode(|b|) + b
    case NullText => [255, 255, 255]
  }

  ghost function Tails(vals: seq<Value>): seq<byte>
    requires Short(vals)
  {
    if vals == [] then [] else Tail(vals[0]) + Tails(vals[1..])
  }

  // The number of bytes in front of the texts: an offset for every text.
  function HeadSize(vals: seq<Value>): nat {
    if vals == [] then 0 else (if vals[0].Fixed? then |vals[0].bytes| else 4) + HeadSize(vals[1..])
  }

  // The fixed part of a value whose text goes to offset at.
  function Head(v: Value, at: nat): seq<byte>
    requires at <= MAX_INT
  {
    if v.Fixed? then v.bytes else Encode(at)
  }

  // The fixed parts, where the first text goes to offset at.
  ghost function Heads(vals: seq<Value>, at: nat): seq<byte>
    requires Short(vals)
    requires at + |Tails(vals)| <= MAX_INT
  {
    if vals == [] then []
    else Head(vals[0], at) + Heads(vals[1..], at + |Tail(vals[0])|)
  }

  // A row as one string of bytes: its fixed parts, then its texts, each right behind the one before.
  ghost function Format(vals: seq<Value>): seq<byte> {
    if Short(vals) && HeadSize(vals) + |Tails(vals)| <= MAX_INT
    then Heads(vals, HeadSize(vals)) + Tails(vals)
    else []
  }

  lemma TailSize(v: Value)
    requires v.Text? ==> |v.bytes| <= MAX_INT
    ensures |Tail(v)| == Reserved(v)
  {}

  lemma TailsStep(vals: seq<Value>, i: nat)
    requires i < |vals| && Short(vals)
    ensures Tails(vals[i..]) == Tail(vals[i]) + Tails(vals[i + 1..])
  {
    assert vals[i..][1..] == vals[i + 1..];
  }

  // The places of the texts follow each other without a gap.
  lemma {:induction false} TailsSize(cols: seq<Column>, vals: seq<Value>, i: nat)
    requires i <= |vals| && Short(vals)
    ensures TextAt(cols, vals, i) + |Tails(vals[i..])| == TupleSize(cols, vals)
    decreases |vals| - i
  {
    if i < |vals| {
      TailsSize(cols, vals, i + 1);
      TailSize(vals[i]);
      TailsStep(vals, i);
    } else {
      assert vals[i..] == [];
    }
  }

  lemma {:induction false} HeadsSize(cols: seq<Column>, vals: seq<Value>, i: nat)
    requires Row(cols, vals) && i <= |vals|
    ensures Offset(cols, i) + HeadSize(vals[i..]) == Offset(cols, |cols|)
    decreases |vals| - i
  {
    if i < |vals| {
      HeadsSize(cols, vals, i + 1);
      assert vals[i..][1..] == vals[i + 1..] && vals[i..][0] == vals[i];
      assert Matches(cols[i], vals[i]);
    }
  }

  // A tuple is as long as its format: the fixed parts, the images of the texts, less one byte for
  // every NULL.
  lemma SizeIsFormat(cols: seq<Column>, vals: seq<Value>)
    requires Storable(cols, vals)
    ensures Short(vals)
    ensures Offset(cols, |cols|) == HeadSize(vals) && TupleSize(cols, vals) == HeadSize(vals) + |Tails(vals)|
  {
    ShortTexts(cols, vals);
    TailsSize(cols, vals, 0);
    HeadsSize(cols, vals, 0);
    assert vals[0..] == vals;
  }

  // A text ends where the next one starts; a NULL one byte behind that.
  lemma TextsTight(cols: seq<Column>, vals: seq<Value>, i: nat)
    requires Storable(cols, vals) && i < |vals| && !vals[i].Fixed?
    ensures vals[i].Text? ==> |vals[i].bytes| <= MAX_INT
    ensures TextAt(cols, vals, NextText(vals, i)) + (if vals[i].NullText? then 1 else 0)
         == TextAt(cols, vals, i) + |Image(vals[i])|
  {
    Places(cols, vals, i);
    NothingBetween(cols, vals, i, NextText(vals, i));
  }

  // The bytes from lo to hi are b.
  ghost predicate Between(d: seq<byte>, lo: nat, hi: nat, b: seq<byte>) {
    lo <= hi <= |d| && d[lo..hi] == b
  }

  lemma Joined(d: seq<byte>, lo: nat, mid: nat, hi: nat, a: seq<byte>, b: seq<byte>)
    requires Between(d, lo, mid, a) && Between(d, mid, hi, b)
    ensures Between(d, lo, hi, a + b)
  {}

  lemma NullHeld(d: seq<byte>, at: nat, vals: seq<Value>, i: nat)
    requires i < |vals| && vals[i].NullText? && Short(vals) && Stretch(d, at, TextPart(vals, i, |vals|))
    ensures Between(d, at, at + 3, Tail(vals[i]))
  {
    var part := TextPart(vals, i, |vals|);
    Marker(0);
    assert d[at..at + 3] == d[at..at + |part|][..3] == part[..3];
  }

  lemma TextHeld(d: seq<byte>, cols: seq<Column>, vals: seq<Value>, i: nat)
    requires Storable(cols, vals) && Short(vals) && i < |vals| && Holds(d, cols, vals, i, |vals|)
    requires TupleSize(cols, vals) <= |d|
    ensures Between(d, TextAt(cols, vals, i), TextAt(cols, vals, i + 1), Tail(vals[i]))
  {
    Places(cols, vals, i);
    TextsApart(cols, vals, i, |vals|);
    var at := TextAt(cols, vals, i);
    if vals[i].NullText? {
      NullHeld(d, at, vals, i);
    } else if vals[i].Text? {
      assert Stretch(d, at, Image(vals[i]));
    }
  }

  lemma TailsJoin(d: seq<byte>, lo: nat, mid: nat, hi: nat, vals: seq<Value>, i: nat)
    requires i < |vals| && Short(vals)
    requires Between(d, lo, mid, Tail(vals[i])) && Between(d, mid, hi, Tails(vals[i + 1..]))
    ensures Between(d, lo, hi, Tails(vals[i..]))
  {
    TailsStep(vals, i);
    Joined(d, lo, mid, hi, Tail(vals[i]), Tails(vals[i + 1..]));
  }

  lemma {:induction false} TailsHeld(d: seq<byte>, cols: seq<Column>, vals: seq<Value>, i: nat)
    requires Storable(cols, vals) && Short(vals) && i <= |vals| && AllHold(d, cols, vals, |vals|)
    requires TupleSize(cols, vals) <= |d|
    ensures Between(d, TextAt(cols, vals, i), TupleSize(cols, vals), Tails(vals[i..]))
    decreases |vals| - i
  {
    if i < |vals| {
      var n := i + 1;
      assert Holds(d, cols, vals, i, |vals|);
      TextHeld(d, cols, vals, i);
      TailsHeld(d, cols, vals, n);
      TailsJoin(d, TextAt(cols, vals, i), TextAt(cols, vals, n), TupleSize(cols, vals), vals, i);
    } else {
      assert vals[i..] == [];
    }
  }

  lemma HeadsStep(vals: seq<Value>, i: nat, at: nat)
    requires i < |vals| && Short(vals) && at + |Tails(vals[i..])| <= MAX_INT
    ensures at + |Tail(vals[i])| + |Tails(vals[i + 1..])| <= MAX_INT
    ensures Heads(vals[i..], at) == Head(vals[i], at) + Heads(vals[i + 1..], at + |Tail(vals[i])|)
  {
    TailsStep(vals, i);
    assert vals[i..][1..] == vals[i + 1..] && vals[i..][0] == vals[i];
  }

  lemma HeadsJoin(d: seq<byte>, lo: nat, mid: nat, hi: nat, vals: seq<Value>, i: nat, at: nat, next: nat)
    requires i < |vals| && Short(vals) && at + |Tails(vals[i..])| <= MAX_INT && next == at + |Tail(vals[i])|
    requires next + |Tails(vals[i + 1..])| <= MAX_INT
    requires Between(d, lo, mid, Head(vals[i], at)) && Between(d, mid, hi, Heads(vals[i + 1..], next))
    ensures Between(d, lo, hi, Heads(vals[i..], at))
  {
    HeadsStep(vals, i, at);
    Joined(d, lo, mid, hi, Head(vals[i], at), Heads(vals[i + 1..], next));
  }

  lemma FixedHeld(d: seq<byte>, cols: seq<Column>, vals: seq<Value>, i: nat)
    requires Storable(cols, vals) && i < |vals| && Holds(d, cols, vals, i, |vals|) && TextAt(cols, vals, i) <= MAX_INT
    ensures Between(d, Offset(cols, i), Offset(cols, i + 1), Head(vals[i], TextAt(cols, vals, i)))
  {
    assert Matches(cols[i], vals[i]);
  }

  lemma {:induction false} HeadsHeld(d: seq<byte>, cols: seq<Column>, vals: seq<Value>, i: nat)
    requires Storable(cols, vals) && Short(vals) && i <= |vals| && AllHold(d, cols, vals, |vals|)
    requires TupleSize(cols, vals) <= |d| && Offset(cols, |cols|) <= |d|
    ensures TextAt(cols, vals, i) + |Tails(vals[i..])| <= MAX_INT
    ensures Between(d, Offset(cols, i), Offset(cols, |cols|), Heads(vals[i..], TextAt(cols, vals, i)))
    decreases |vals| - i
  {
    TailsSize(cols, vals, i);
    if i < |vals| {
      var n, at := i + 1, TextAt(cols, vals, i);
      assert Holds(d, cols, vals, i, |vals|);
      FixedHeld(d, cols, vals, i);
      HeadsHeld(d, cols, vals, n);
      TailSize(vals[i]);
      HeadsJoin(d, Offset(cols, i), Offset(cols, n), Offset(cols, |cols|), vals, i, at, TextAt(cols, vals, n));
    } else {
      assert vals[i..] == [];
    }
  }

  // What the write loop leaves is the format, NULLs included.
  lemma FormatHeld(d: seq<byte>, cols: seq<Column>, vals: seq<Value>)
    requires Storable(cols, vals) && AllHold(d, cols, vals, |vals|) && TupleSize(cols, vals) <= |d|
    ensures TupleSize(cols, vals) == |Format(vals)| && d[..TupleSize(cols, vals)] == Format(vals)
  {
    SizeIsFormat(cols, vals);
    TailsSize(cols, vals, 0);
    assert vals[0..] == vals;
    HeadsHeld(d, cols, vals, 0);
    TailsHeld(d, cols, vals, 0);
    Joined(d, 0, Offset(cols, |cols|), TupleSize(cols, vals), Heads(vals, HeadSize(vals)), Tails(vals));
    assert d[0..TupleSize(cols, vals)] == d[..TupleSize(cols, vals)];
  }

  // Writes the columns of a row one by one into the memory m that starts with the tuple and goes on
  // for at least one byte behind it.
  method Serialize(cols: seq<Column>, vals: seq<Value>, m: seq<byte>) returns (d: seq<byte>)
    requires Storable(cols, vals) && TupleSize(cols, vals) < |m|
    ensures |d| == |m| && AllHold(d, cols, vals, |vals|)
    ensures forall i :: 0 <= i < |vals| ==> (GetValue(d, cols, i) == Got(vals[i]) <==> ReadsBack(vals, i))
    ensures d[TupleSize(cols, vals) + 1..] == m[TupleSize(cols, vals) + 1..]
    ensures TupleSize(cols, vals) == |Format(vals)| && d[..TupleSize(cols, vals)] == Format(vals)
  {
    d := m;
    var at, text := 0, Offset(cols, |cols|);
    for i := 0 to |cols|
      invariant |d| == |m| && at == Offset(cols, i) && text == TextAt(cols, vals, i)
      invariant AllHold(d, cols, vals, i)
      invariant d[TupleSize(cols, vals) + 1..] == m[TupleSize(cols, vals) + 1..]
    {
      d := WriteColumn(d, cols, vals, i, at, text);
      at, text := at + cols[i].FixedLength(), text + Reserved(vals[i]);
    }
    forall i | 0 <= i < |vals| ensures GetValue(d, cols, i) == Got(vals[i]) <==> ReadsBack(vals, i) {
      assert Holds(d, cols, vals, i, |vals|);
      RoundTripIff(d, cols, vals, i);
    }
    FormatHeld(d, cols, vals);
  }

  method WriteColumn(d: seq<byte>, cols: seq<Column>, vals: seq<Value>, i: nat, at: nat, text: nat)
      returns (r: seq<byte>)
    requires Storable(cols, vals) && i < |vals| && TupleSize(cols, vals) < |d|
    requires at == Offset(cols, i) && text == TextAt(cols, vals, i)
    requires AllHold(d, cols, vals, i)
    ensures |r| == |d| && AllHold(r, cols, vals, i + 1)
    ensures r[TupleSize(cols, vals) + 1..] == d[TupleSize(cols, vals) + 1..]
  {
    Places(cols, vals, i);
    r := WriteFixed(d, cols, vals, i, at);
    if vals[i].Fixed? {
      FixedWritten(r, cols, vals, i);
    } else {
      r := WriteText(r, cols, vals, i, text);
    }
  }

  lemma FixedWritten(d: seq<byte>, cols: seq<Column>, vals: seq<Value>, i: nat)
    requires Storable(cols, vals) && i < |vals| && vals[i].Fixed? && AllHold(d, cols, vals, i)
    requires TextAt(cols, vals, i) <= MAX_INT && Stretch(d, Offset(cols, i), FixedPart(cols, vals, i))
    ensures AllHold(d, cols, vals, i + 1)
  {
    var n := i + 1;
    forall j | 0 <= j < n ensures Holds(d, cols, vals, j, n) {
      if j < i {
        assert Holds(d, cols, vals, j, i);
        FixedAdds(d, cols, vals, i, j);
      }
    }
  }

  // A fixed column changes nothing about the texts before it.
  lemma FixedAdds(d: seq<byte>, cols: seq<Column>, vals: seq<Value>, i: nat, j: nat)
    requires Storable(cols, vals) && j < i < |vals| && vals[i].Fixed? && Holds(d, cols, vals, j, i)
    ensures Holds(d, cols, vals, j, i + 1)
  {
    ShortTexts(cols, vals);
    if !vals[j].Fixed? {
      assert NextText(vals, j) != i;
      assert TextPart(vals, j, i + 1) == TextPart(vals, j, i);
    }
  }

  method WriteFixed(d: seq<byte>, cols: seq<Column>, vals: seq<Value>, i: nat, at: nat) returns (r: seq<byte>)
    requires Storable(cols, vals) && i < |vals| && TupleSize(cols, vals) < |d| && at == Offset(cols, i)
    requires TextAt(cols, vals, i) <= MAX_INT && AllHold(d, cols, vals, i)
    ensures |r| == |d| && AllHold(r, cols, vals, i) && Stretch(r, at, FixedPart(cols, vals, i))
    ensures r[TupleSize(cols, vals) + 1..] == d[TupleSize(cols, vals) + 1..]
  {
    Places(cols, vals, i);
    var part := FixedPart(cols, vals, i);
    r := Write(d, at, part);
    StretchWritten(d, at, part);
    forall j | 0 <= j < i ensures Holds(r, cols, vals, j, i) {
      assert Holds(d, cols, vals, j, i);
      FixedKeeps(d, cols, vals, i, j, part);
    }
  }

  method WriteText(d: seq<byte>, cols: seq<Column>, vals: seq<Value>, i: nat, text: nat) returns (r: seq<byte>)
    requires Storable(cols, vals) && i < |vals| && TupleSize(cols, vals) < |d| && !vals[i].Fixed? &&
             text == TextAt(cols, vals, i)
    requires text <= MAX_INT && Stretch(d, Offset(cols, i), FixedPart(cols, vals, i))
    requires AllHold(d, cols, vals, i)
    ensures |r| == |d| && AllHold(r, cols, vals, i + 1)
    ensures r[TupleSize(cols, vals) + 1..] == d[TupleSize(cols, vals) + 1..]
  {
    Places(cols, vals, i);
    ShortTexts(cols, vals);
    var image := Image(vals[i]);
    r := Write(d, text, image);
    StretchWritten(d, text, image);
    StretchKept(d, text, image, Offset(cols, i), FixedPart(cols, vals, i));
    var n := i + 1;
    forall j | 0 <= j < n ensures Holds(r, cols, vals, j, n) {
      if j < i {
        assert Holds(d, cols, vals, j, i);
        TextKeeps(d, cols, vals, i, j);
      }
    }
  }

  // --- reading ---

  // A value, or a length or an offset that leads out of the memory.
  datatype Reading = Got(value: Value) | OutOfBounds

  function Unsigned(v: int): int {
    if v < 0 then v + 0x1_0000_0000 else v
  }

  // Reads a text: the largest length stands for NULL.
  function ReadText(d: seq<byte>, at: int): Reading {
    if at < 0 || at + 4 > |d| then OutOfBounds
    else
      var n := Unsigned(GetInt(d, at));
      if n == 0xffff_ffff then Got(NullText)
      else if n < 0 || at + 4 + n > |d| then OutOfBounds
      else Got(Text(d[at + 4..at + 4 + n]))
  }

  // Reads column i: in place, or through its offset.
  function GetValue(d: seq<byte>, cols: seq<Column>, i: nat): Reading
    requires i < |cols|
  {
    var at := Offset(cols, i);
    if at + cols[i].FixedLength() > |d| then OutOfBounds
    else if cols[i].Inlined? then Got(Fixed(d[at..at + cols[i].width]))
    else ReadText(d, GetInt(d, at))
  }

  lemma EncodedAt(d: seq<byte>, at: nat, v: int, rest: seq<byte>)
    requires MIN_INT <= v <= MAX_INT && Stretch(d, at, Encode(v) + rest)
    ensures at + 4 + |rest| <= |d| && GetInt(d, at) == v && d[at + 4..at + 4 + |rest|] == rest
  {
    EncodeDecode(v);
    var s := Encode(v) + rest;
    assert s == d[at..at + |s|];
    assert d[at..at + 4] == s[..4] == Encode(v);
    assert d[at + 4..at + 4 + |rest|] == s[4..] == rest;
  }

  // The first byte of an encoded length is its lowest; a NULL is four times 255.
  lemma Marker(x: byte)
    ensures Encode(-1) == [255, 255, 255, 255]
    ensures FromBytes([255, 255, 255, x]) == 0xff_ffff + 0x100_0000 * x
  {
    assert ToBytes(255, 1) == [255];
    assert ToBytes(65535, 2) == [255, 255];
    assert ToBytes(0xff_ffff, 3) == [255, 255, 255];
    var b: seq<byte> := [255, 255, 255, x];
    assert b[1..] == [255, 255, x] && b[1..][1..] == [255, x] && b[1..][1..][1..] == [x];
    assert FromBytes([x]) == x;
    assert FromBytes([255, x]) == 255 + 256 * x;
    assert FromBytes([255, 255, x]) == 65535 + 65536 * x;
  }

  // A column reads back, unless it is a NULL whose last byte the next text has changed: a text whose
  // length does not end in the byte 255.
  predicate ReadsBack(vals: seq<Value>, i: nat)
    requires i < |vals|
  {
    var j := NextText(vals, i);
    !(vals[i].NullText? && j < |vals| && vals[j].Text? && |vals[j].bytes| % 256 != 255)
  }

  lemma TextReads(d: seq<byte>, at: nat, bytes: seq<byte>)
    requires |bytes| <= MAX_INT && Stretch(d, at, Encode(|bytes|) + bytes)
    ensures ReadText(d, at) == Got(Text(bytes))
  {
    EncodedAt(d, at, |bytes|, bytes);
  }

  lemma NullReads(d: seq<byte>, at: nat, x: byte)
    requires Stretch(d, at, [255, 255, 255, x])
    ensures ReadText(d, at) == Got(NullText) <==> x == 255
  {
    Marker(x);
    assert d[at..at + 4] == [255, 255, 255, x];
    assert Unsigned(GetInt(d, at)) == 0xff_ffff + 0x100_0000 * x;
  }

  lemma LowByte(n: nat)
    requires n <= MAX_INT
    ensures Encode(n)[0] == n % 256
  {}

  lemma FollowedReads(d: seq<byte>, at: nat, next: Value)
    requires !next.Fixed? && (next.Text? ==> |next.bytes| <= MAX_INT)
    requires Stretch(d, at, Image(NullText)[3 := Image(next)[0]])
    ensures ReadText(d, at) == Got(NullText) <==> next.NullText? || |next.bytes| % 256 == 255
  {
    Marker(0);
    var x := Image(next)[0];
    assert Image(NullText)[3 := x] == [255, 255, 255, x];
    NullReads(d, at, x);
    if next.Text? {
      LowByte(|next.bytes|);
    }
  }

  lemma LoneNullReads(d: seq<byte>, at: nat)
    requires Stretch(d, at, Image(NullText))
    ensures ReadText(d, at) == Got(NullText)
  {
    Marker(0);
    NullReads(d, at, 255);
  }

  lemma TextColumnReads(d: seq<byte>, cols: seq<Column>, vals: seq<Value>, i: nat)
    requires Storable(cols, vals) && i < |vals| && !vals[i].Fixed? && Holds(d, cols, vals, i, |vals|)
    ensures GetValue(d, cols, i) == Got(vals[i]) <==> ReadsBack(vals, i)
  {
    Places(cols, vals, i);
    ShortTexts(cols, vals);
    var text, j := TextAt(cols, vals, i), NextText(vals, i);
    OffsetReads(d, cols, i, text);
    if vals[i].Text? {
      TextReads(d, text, vals[i].bytes);
    } else if j < |vals| {
      FollowedReads(d, text, vals[j]);
    } else {
      LoneNullReads(d, text);
    }
  }

  lemma OffsetReads(d: seq<byte>, cols: seq<Column>, i: nat, text: nat)
    requires i < |cols| && cols[i].Varchar? && text <= MAX_INT && Stretch(d, Offset(cols, i), Encode(text))
    ensures GetValue(d, cols, i) == ReadText(d, text)
  {
    assert Encode(text) + [] == Encode(text);
    EncodedAt(d, Offset(cols, i), text, []);
  }

  // Exactly when a column of a written row is read back.
  lemma RoundTripIff(d: seq<byte>, cols: seq<Column>, vals: seq<Value>, i: nat)
    requires Storable(cols, vals) && i < |vals| && Holds(d, cols, vals, i, |vals|)
    ensures GetValue(d, cols, i) == Got(vals[i]) <==> ReadsBack(vals, i)
  {
    if vals[i].Fixed? {
      Places(cols, vals, i);
    } else {
      TextColumnReads(d, cols, vals, i);
    }
  }

  // A NULL in front of a text of one byte: the written bytes overlap and the NULL is lost.
  lemma NullLost(d: seq<byte>, b: byte)
    requires var cols, vals := [Varchar, Varchar], [NullText, Text([b])];
             Storable(cols, vals) && Holds(d, cols, vals, 0, 2)
    ensures var cols, vals := [Varchar, Varchar], [NullText, Text([b])];
            !EndsBefore(cols, vals, 0, 1) && GetValue(d, cols, 0) != Got(NullText)
  {
    var cols, vals := [Varchar, Varchar], [NullText, Text([b])];
    assert NextText(vals, 0) == 1;
    WrittenApart(cols, vals, 0, 1);
    RoundTripIff(d, cols, vals, 0);
  }
}
