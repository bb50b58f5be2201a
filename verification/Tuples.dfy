/** The tuple codec: storage/tuple/tuple.go over storage/table/schema/schema.go and column.go. */
module Tuples {
  import opened Bytes
  import opened Collections
  import opened Values

  // ---------- the layout, on values ----------

  /** Bytes of the fixed part: a varchar leaves a 4-byte pointer there. */
  function FixedLength(t: Type): nat {
    match t
    case Integer => 5
    case Float => 5
    case Boolean => 2
    case Varchar => 4
  }

  /** Where column `i` starts in the fixed part; with all columns, the length of that part. */
  function Offset(types: seq<Type>, i: nat): nat
    requires i <= |types|
  {
    if i == 0 then 0 else Offset(types, i - 1) + FixedLength(types[i - 1])
  }

  predicate TypesMatch(types: seq<Type>, values: seq<Value>) {
    |values| == |types| && forall i | 0 <= i < |types| :: TypeOf(values[i]) == types[i] && ValueOk(values[i])
  }

  /** Bytes of the varchars among the first `i` values. */
  function TailSize(values: seq<Value>, i: nat): nat
    requires i <= |values|
  {
    if i == 0 then 0 else TailSize(values, i - 1) + if values[i - 1].VarcharValue? then Size(values[i - 1]) else 0
  }

  function TupleSize(types: seq<Type>, values: seq<Value>): nat {
    Offset(types, |types|) + TailSize(values, |values|)
  }

  /** What stands in the fixed part for value `i`. */
  function FixedBytes(types: seq<Type>, values: seq<Value>, i: nat): (s: seq<byte>)
    requires TypesMatch(types, values) && TupleSize(types, values) < U32 && i < |types|
    ensures |s| == FixedLength(types[i])
  {
    TailGrows(values, i, |values|);
    if values[i].VarcharValue? then Enc32(Offset(types, |types|) + TailSize(values, i)) else Serialize(values[i])
  }

  function Fixed(types: seq<Type>, values: seq<Value>, i: nat): (s: seq<byte>)
    requires TypesMatch(types, values) && TupleSize(types, values) < U32 && i <= |types|
    ensures |s| == Offset(types, i)
  {
    if i == 0 then [] else Fixed(types, values, i - 1) + FixedBytes(types, values, i - 1)
  }

  function TailBytes(v: Value): (s: seq<byte>)
    ensures |s| == if v.VarcharValue? then Size(v) else 0
  {
    if v.VarcharValue? then Serialize(v) else []
  }

  function Tail(values: seq<Value>, i: nat): (s: seq<byte>)
    requires i <= |values|
    ensures |s| == TailSize(values, i)
  {
    if i == 0 then [] else Tail(values, i - 1) + TailBytes(values[i - 1])
  }

  /** The tuple: fixed part, then the varchars. */
  function Layout(types: seq<Type>, values: seq<Value>): (s: seq<byte>)
    requires TypesMatch(types, values) && TupleSize(types, values) < U32
    ensures |s| == TupleSize(types, values)
  {
    Fixed(types, values, |types|) + Tail(values, |values|)
  }

  /** Where a column's value starts: its place in the fixed part, or where that points. Nothing if out of bounds. */
  function Locate(data: seq<byte>, offset: nat, t: Type): Option<nat> {
    if t != Varchar then if offset <= |data| then Some(offset) else None
    else if offset + 4 > |data| then None
    else
      var at: nat := Dec32(data, offset);
      if at <= |data| then Some(at) else None
  }

  function ReadValue(data: seq<byte>, offset: nat, t: Type): Option<Value> {
    var at := Locate(data, offset, t);
    if at.None? then None else NewValueFromBytes(data[at.value..], t)
  }

  function ReadKey(data: seq<byte>, offset: nat, t: Type): Option<seq<byte>> {
    var at := Locate(data, offset, t);
    if at.None? then None else ValueBytes(data[at.value..], t)
  }

  // ---------- reading back what was laid out ----------

  lemma {:induction false} TailGrows(values: seq<Value>, i: nat, j: nat)
    requires i <= j <= |values|
    ensures TailSize(values, i) <= TailSize(values, j)
  {
    if i < j {
      TailGrows(values, i, j - 1);
    }
  }

  lemma {:induction false} OffsetGrows(types: seq<Type>, i: nat, j: nat)
    requires i <= j <= |types|
    ensures Offset(types, i) <= Offset(types, j)
  {
    if i < j {
      OffsetGrows(types, i, j - 1);
    }
  }

  lemma {:induction false} InFront(a: seq<byte>, b: seq<byte>, lo: nat, hi: nat)
    requires lo <= hi <= |a|
    ensures (a + b)[lo..hi] == a[lo..hi]
  {
  }

  lemma {:induction false} Behind(a: seq<byte>, b: seq<byte>)
    ensures (a + b)[|a|..|a| + |b|] == b
  {
  }

  /** What follows the first `i` pieces starts with piece `i`. */
  lemma {:induction false} FixedAt(types: seq<Type>, values: seq<Value>, i: nat, n: nat)
    requires TypesMatch(types, values) && TupleSize(types, values) < U32 && i < n <= |types|
    ensures Offset(types, i) + FixedLength(types[i]) <= Offset(types, n)
    ensures Fixed(types, values, n)[Offset(types, i)..Offset(types, i) + FixedLength(types[i])]
            == FixedBytes(types, values, i)
  {
    hide FixedBytes, FixedLength;
    var before, last := Fixed(types, values, n - 1), FixedBytes(types, values, n - 1);
    if i < n - 1 {
      FixedAt(types, values, i, n - 1);
      InFront(before, last, Offset(types, i), Offset(types, i) + FixedLength(types[i]));
    } else {
      Behind(before, last);
    }
  }

  lemma {:induction false} TailAt(values: seq<Value>, i: nat, n: nat)
    requires i < n <= |values|
    ensures TailSize(values, i) + |TailBytes(values[i])| <= TailSize(values, n)
    ensures Tail(values, n)[TailSize(values, i)..TailSize(values, i) + |TailBytes(values[i])|] == TailBytes(values[i])
  {
    hide TailBytes;
    var before, last := Tail(values, n - 1), TailBytes(values[n - 1]);
    if i < n - 1 {
      TailAt(values, i, n - 1);
      InFront(before, last, TailSize(values, i), TailSize(values, i) + |TailBytes(values[i])|);
    } else {
      Behind(before, last);
    }
  }

  /** The located bytes of every column start with the bytes of its value. */
  lemma {:induction false} Located(types: seq<Type>, values: seq<Value>, i: nat)
    requires TypesMatch(types, values) && TupleSize(types, values) < U32 && i < |types|
    ensures var at := Locate(Layout(types, values), Offset(types, i), types[i]);
            && at.Some? && at.value + Size(values[i]) <= |Layout(types, values)|
            && Layout(types, values)[at.value..at.value + Size(values[i])] == Serialize(values[i])
  {
    hide Fixed, Tail, Locate, FixedBytes, TailBytes, TailSize, Serialize;
    var fixed, tail := Fixed(types, values, |types|), Tail(values, |values|);
    var o, l := Offset(types, i), FixedLength(types[i]);
    FixedAt(types, values, i, |types|);
    InFront(fixed, tail, o, o + l);
    if values[i].VarcharValue? {
      TailAt(values, i, |values|);
      PointerAt(types, values, i);
      LocatedVarchar(fixed, tail, o, TailSize(values, i), TailBytes(values[i]));
    } else {
      LocatedInline(fixed + tail, o, types[i]);
      InlineAt(types, values, i);
    }
  }

  lemma {:induction false} PointerAt(types: seq<Type>, values: seq<Value>, i: nat)
    requires TypesMatch(types, values) && TupleSize(types, values) < U32 && i < |types| && values[i].VarcharValue?
    ensures TailBytes(values[i]) == Serialize(values[i]) && types[i] == Varchar
    ensures Offset(types, |types|) + TailSize(values, i) < U32
            && FixedBytes(types, values, i) == Enc32(Offset(types, |types|) + TailSize(values, i))
  {
    TailGrows(values, i, |values|);
  }

  lemma {:induction false} InlineAt(types: seq<Type>, values: seq<Value>, i: nat)
    requires TypesMatch(types, values) && TupleSize(types, values) < U32 && i < |types| && !values[i].VarcharValue?
    ensures FixedBytes(types, values, i) == Serialize(values[i]) && types[i] != Varchar
            && FixedLength(types[i]) == Size(values[i])
  {
  }

  lemma {:induction false} LocatedInline(data: seq<byte>, o: nat, t: Type)
    requires o <= |data|
    ensures t != Varchar ==> Locate(data, o, t) == Some(o)
  {
  }

  /** A pointer in the fixed part leads to the piece of the tail it was made for. */
  lemma {:induction false} LocatedVarchar(fixed: seq<byte>, tail: seq<byte>, o: nat, k: nat, piece: seq<byte>)
    requires o + 4 <= |fixed| && |fixed| + k < U32 && k + |piece| <= |tail|
    requires (fixed + tail)[o..o + 4] == Enc32(|fixed| + k) && tail[k..k + |piece|] == piece
    ensures Locate(fixed + tail, o, Varchar) == Some(|fixed| + k)
    ensures (fixed + tail)[|fixed| + k..|fixed| + k + |piece|] == piece
  {
    hide Dec32, Enc32;
    DecEnc32(fixed + tail, o, |fixed| + k);
    assert (fixed + tail)[|fixed| + k..|fixed| + k + |piece|] == tail[k..k + |piece|];
  }

  lemma {:induction false} HeadAndRest(data: seq<byte>, at: nat, n: nat)
    requires at + n <= |data|
    ensures data[at..] == data[at..at + n] + data[at + n..]
  {
  }

  /**
   Every column of every tuple reads back as the value stored, NULL or not, whatever the other columns hold,
   if and only if it is not a varchar of more than 32764 bytes.
   */
  lemma {:induction false} TupleRoundTrip(types: seq<Type>, values: seq<Value>, i: nat)
    requires TypesMatch(types, values) && TupleSize(types, values) < U32 && i < |types|
    ensures ReadValue(Layout(types, values), Offset(types, i), types[i]) == Some(values[i]) <==>
            (values[i].VarcharValue? ==> |values[i].varchar| <= 32764)
  {
    hide Layout, Locate, NewValueFromBytes, Serialize;
    var data := Layout(types, values);
    Located(types, values, i);
    var at := Locate(data, Offset(types, i), types[i]).value;
    HeadAndRest(data, at, Size(values[i]));
    RoundTrip(values[i], data[at + Size(values[i])..]);
  }

  /** The bytes copied out of a tuple, an index key, are the value's own unless a varchar has more than 32767 bytes. */
  lemma {:induction false} KeyRoundTrip(types: seq<Type>, values: seq<Value>, i: nat)
    requires TypesMatch(types, values) && TupleSize(types, values) < U32 && i < |types|
    ensures ReadKey(Layout(types, values), Offset(types, i), types[i]) == Some(Serialize(values[i])) <==>
            (values[i].VarcharValue? ==> |values[i].varchar| <= 32767)
  {
    hide Layout, Locate, ValueBytes, Serialize;
    var data := Layout(types, values);
    Located(types, values, i);
    var at := Locate(data, Offset(types, i), types[i]).value;
    HeadAndRest(data, at, Size(values[i]));
    BytesRoundTrip(values[i], data[at + Size(values[i])..]);
  }

  /** An integer, a varchar and a Boolean in one tuple, byte for byte. */
  lemma SampleTuple()
    ensures var types, values := [Integer, Varchar, Boolean],
                [IntegerValue(false, 7), VarcharValue(false, [97, 98]), BooleanValue(false, true)];
            && TypesMatch(types, values) && TupleSize(types, values) == 16
            && Layout(types, values) == [0, 7, 0, 0, 0] + [11, 0, 0, 0] + [0, 1] + [0, 2, 0, 97, 98]
  {
    var types, values := [Integer, Varchar, Boolean],
        [IntegerValue(false, 7), VarcharValue(false, [97, 98]), BooleanValue(false, true)];
    assert Offset(types, 1) == 5 && Offset(types, 2) == 9 && Offset(types, 3) == 11;
    assert TailSize(values, 1) == 0 && TailSize(values, 2) == 5 && TailSize(values, 3) == 5;
    assert Fixed(types, values, 1) == [0, 7, 0, 0, 0];
    assert Fixed(types, values, 2) == [0, 7, 0, 0, 0] + [11, 0, 0, 0];
    assert Fixed(types, values, 3) == [0, 7, 0, 0, 0] + [11, 0, 0, 0] + [0, 1];
    assert Tail(values, 1) == [] && Tail(values, 2) == [0, 2, 0, 97, 98] == Tail(values, 3);
  }

  // ---------- the tuple that carries a search key ----------

  /** The value `GenTupleForHashIndexSearch` adds for a column; none for a Boolean one. */
  function SearchValue(t: Type, isKey: bool, key: Value): seq<Value> {
    match t
    case Integer => [if isKey then key else IntegerValue(false, 0)]
    case Float => [if isKey then key else FloatValue(false, 0)]
    case Boolean => []
    case Varchar => [if isKey then key else VarcharValue(false, [])]
  }

  function SearchValues(types: seq<Type>, col: nat, key: Value, i: nat): seq<Value>
    requires i <= |types|
  {
    if i == 0 then [] else SearchValues(types, col, key, i - 1) + SearchValue(types[i - 1], i - 1 == col, key)
  }

  lemma {:induction false} SearchValuesAre(types: seq<Type>, col: nat, key: Value, i: nat)
    requires i <= |types|
    ensures |SearchValues(types, col, key, i)| <= i
    ensures |SearchValues(types, col, key, i)| == i <==> forall j | 0 <= j < i :: types[j] != Boolean
    ensures (forall j | 0 <= j < i :: types[j] != Boolean) ==>
              forall j | 0 <= j < i :: SearchValues(types, col, key, i)[j] == SearchValue(types[j], j == col, key)[0]
  {
    if i > 0 {
      SearchValuesAre(types, col, key, i - 1);
    }
  }

  /** The search tuple has a value for every column if and only if no column is Boolean; without that Go panics. */
  lemma {:induction false} SearchTupleWorks(types: seq<Type>, col: nat, key: Value)
    requires col < |types| && ValueOk(key) && TypeOf(key) == types[col]
    ensures TypesMatch(types, SearchValues(types, col, key, |types|))
            <==> forall j | 0 <= j < |types| :: types[j] != Boolean
    ensures TypesMatch(types, SearchValues(types, col, key, |types|))
            ==> SearchValues(types, col, key, |types|)[col] == key
                && forall j | 0 <= j < |types| && j != col ::
                     SearchValues(types, col, key, |types|)[j]
                       in {IntegerValue(false, 0), FloatValue(false, 0), VarcharValue(false, [])}
  {
    SearchValuesAre(types, col, key, |types|);
  }

  // ---------- schema and tuple objects ----------

  class Column {
    const columnType: Type
    var columnOffset: nat

    constructor (t: Type)
      ensures columnType == t && columnOffset == 0
    {
      columnType, columnOffset := t, 0;
    }

    predicate IsInlined() {
      columnType != Varchar
    }
  }

  function TypesOf(columns: seq<Column>): (types: seq<Type>)
    ensures |types| == |columns| && forall i | 0 <= i < |types| :: types[i] == columns[i].columnType
  {
    seq(|columns|, i requires 0 <= i < |columns| => columns[i].columnType)
  }

  /** The places of the varchars among the first `i` columns. */
  function Uninlined(types: seq<Type>, i: nat): (r: seq<nat>)
    requires i <= |types|
    ensures forall k | 0 <= k < |r| :: r[k] < i
  {
    if i == 0 then [] else Uninlined(types, i - 1) + if types[i - 1] == Varchar then [i - 1] else []
  }

  lemma {:induction false} SchemaStart(types: seq<Type>)
    ensures Offset(types, 0) == 0 && Uninlined(types, 0) == []
  {
  }

  lemma {:induction false} SchemaStep(types: seq<Type>, i: nat)
    requires i < |types|
    ensures Offset(types, i + 1) == Offset(types, i) + FixedLength(types[i])
    ensures Uninlined(types, i + 1) == Uninlined(types, i) + if types[i] == Varchar then [i] else []
    ensures types[i] != Varchar ==> Uninlined(types, i + 1) == Uninlined(types, i)
  {
  }

  class Schema {
    var length: nat
    var columns: seq<Column>
    var uninlinedColumns: seq<nat>

    /** Every column knows its place in the fixed part. */
    ghost predicate Valid()
      reads this, columns
    {
      var types := TypesOf(columns);
      && length == Offset(types, |types|) && uninlinedColumns == Uninlined(types, |types|)
      && forall i | 0 <= i < |columns| :: columns[i].columnOffset == Offset(types, i)
    }

    /** `NewSchema`. */
    constructor (columns: seq<Column>)
      requires forall i, j | 0 <= i < j < |columns| :: columns[i] != columns[j]
      modifies columns
      ensures Valid() && this.columns == columns
    {
      hide Offset, Uninlined;
      var length, uninlined := PlaceColumns(columns);
      this.length, this.columns, this.uninlinedColumns := length, columns, uninlined;
    }
  }

  /** The loop of `NewSchema`. A column object listed twice would keep only its last offset. */
  method PlaceColumns(columns: seq<Column>) returns (currentOffset: nat, uninlined: seq<nat>)
    requires forall i, j | 0 <= i < j < |columns| :: columns[i] != columns[j]
    modifies columns
    ensures currentOffset == Offset(TypesOf(columns), |columns|) && uninlined == Uninlined(TypesOf(columns), |columns|)
    ensures forall i | 0 <= i < |columns| :: columns[i].columnOffset == Offset(TypesOf(columns), i)
  {
    hide Offset, Uninlined, FixedLength;
    ghost var types := TypesOf(columns);
    SchemaStart(types);
    currentOffset, uninlined := 0, [];
    for i := 0 to |columns|
      invariant currentOffset == Offset(types, i) && uninlined == Uninlined(types, i)
      invariant forall j | 0 <= j < i :: columns[j].columnOffset == Offset(types, j)
    {
      SchemaStep(types, i);
      if !columns[i].IsInlined() {
        uninlined := uninlined + [i];
      }
      columns[i].columnOffset := currentOffset;
      currentOffset := currentOffset + FixedLength(columns[i].columnType);
    }
  }

  /** What the first loop of `NewTupleFromSchema` adds up. */
  function SizesAt(values: seq<Value>, at: seq<nat>, k: nat): nat
    requires k <= |at| && forall j | 0 <= j < |at| :: at[j] < |values|
  {
    if k == 0 then 0 else SizesAt(values, at, k - 1) + Size(values[at[k - 1]])
  }

  lemma {:induction false} SizesPrefix(values: seq<Value>, a: seq<nat>, b: seq<nat>, k: nat)
    requires k <= |a| && (forall j | 0 <= j < |a| :: a[j] < |values|)
             && (forall j | 0 <= j < |a + b| :: (a + b)[j] < |values|)
    ensures SizesAt(values, a + b, k) == SizesAt(values, a, k)
  {
    if k > 0 {
      SizesPrefix(values, a, b, k - 1);
    }
  }

  /** The varchar columns' sizes are the tail's size. */
  lemma {:induction false} SizesAreTail(types: seq<Type>, values: seq<Value>, i: nat)
    requires TypesMatch(types, values) && i <= |types|
    ensures forall j | 0 <= j < |Uninlined(types, i)| :: Uninlined(types, i)[j] < |values|
    ensures SizesAt(values, Uninlined(types, i), |Uninlined(types, i)|) == TailSize(values, i)
  {
    hide Size, ValueOk, SizesAt, TypesMatch;
    SameCount(types, values);
    if i > 0 {
      SizesAreTail(types, values, i - 1);
      TypeAt(types, values, i - 1);
      if types[i - 1] == Varchar {
        SizesSnoc(values, Uninlined(types, i - 1), i - 1);
      } else {
        assert Uninlined(types, i) == Uninlined(types, i - 1);
      }
    } else {
      NoSizes(values);
    }
  }

  lemma {:induction false} SameCount(types: seq<Type>, values: seq<Value>)
    requires TypesMatch(types, values)
    ensures |types| == |values|
  {
  }

  lemma {:induction false} TypeAt(types: seq<Type>, values: seq<Value>, i: nat)
    requires TypesMatch(types, values) && i < |types| == |values|
    ensures values[i].VarcharValue? <==> types[i] == Varchar
  {
  }

  lemma {:induction false} NoSizes(values: seq<Value>)
    ensures SizesAt(values, [], 0) == 0
  {
  }

  lemma {:induction false} SizesSnoc(values: seq<Value>, at: seq<nat>, k: nat)
    requires k < |values| && forall j | 0 <= j < |at| :: at[j] < |values|
    ensures SizesAt(values, at + [k], |at| + 1) == SizesAt(values, at, |at|) + Size(values[k])
  {
    hide Size;
    SizesPrefix(values, at, [k], |at|);
  }

  class Tuple {
    var size: nat
    var data: array<byte>

    constructor (size: nat)
      ensures this.size == size && fresh(data) && data.Length == size
    {
      this.size := size;
      data := new byte[size](_ => 0);
    }

    /** Go's `copy(t.data[offset:], b)` where there is room. */
    method Copy(offset: nat, b: seq<byte>)
      requires offset + |b| <= data.Length
      modifies data
      ensures data[..] == Splice(old(data[..]), offset, b)
    {
      forall i | 0 <= i < |b| {
        data[offset + i] := b[i];
      }
      assert data[..] == Splice(old(data[..]), offset, b);
    }

    /** The place of a column's value. */
    method LocateColumn(schema: Schema, colIndex: nat) returns (at: Option<nat>)
      requires schema.Valid() && colIndex < |schema.columns|
      ensures at == Locate(data[..], Offset(TypesOf(schema.columns), colIndex), schema.columns[colIndex].columnType)
    {
      hide Dec32;
      var column := schema.columns[colIndex];
      var offset := column.columnOffset;
      if !column.IsInlined() {
        if offset + 4 > data.Length {
          return None;
        }
        offset := Dec32(data[..], offset);
      }
      return if offset <= data.Length then Some(offset) else None;
    }

    method GetValue(schema: Schema, colIndex: nat) returns (r: Option<Value>)
      requires schema.Valid() && colIndex < |schema.columns|
      ensures r == ReadValue(data[..], Offset(TypesOf(schema.columns), colIndex), schema.columns[colIndex].columnType)
    {
      var at := LocateColumn(schema, colIndex);
      if at.None? {
        return None;
      }
      assert data[..][at.value..] == data[at.value..];
      return NewValueFromBytes(data[at.value..], schema.columns[colIndex].columnType);
    }

    method GetValueInBytes(schema: Schema, colIndex: nat) returns (r: Option<seq<byte>>)
      requires schema.Valid() && colIndex < |schema.columns|
      ensures r == ReadKey(data[..], Offset(TypesOf(schema.columns), colIndex), schema.columns[colIndex].columnType)
    {
      var at := LocateColumn(schema, colIndex);
      if at.None? {
        return None;
      }
      assert data[..][at.value..] == data[at.value..];
      return ValueBytes(data[at.value..], schema.columns[colIndex].columnType);
    }
  }

  /** The bytes written once the first `i` columns are: the fixed part up to there, and the tail up to there. */
  ghost predicate Written(data: seq<byte>, types: seq<Type>, values: seq<Value>, i: nat)
    requires TypesMatch(types, values) && TupleSize(types, values) < U32 && i <= |types|
             && |data| == TupleSize(types, values)
  {
    OffsetGrows(types, i, |types|);
    TailGrows(values, i, |types|);
    var length := Offset(types, |types|);
    data[..Offset(types, i)] == Fixed(types, values, i) && data[length..length + TailSize(values, i)] == Tail(values, i)
  }

  /** One more column: its fixed bytes, and behind the tail its varchar. */
  lemma {:induction false} WrittenNext(data: seq<byte>, types: seq<Type>, values: seq<Value>, i: nat)
    requires TypesMatch(types, values) && TupleSize(types, values) < U32 && i < |types|
             && |data| == TupleSize(types, values)
    requires Written(data, types, values, i)
    ensures var length := Offset(types, |types|);
            && Offset(types, i) + FixedLength(types[i]) <= length
               && length + TailSize(values, i) + |TailBytes(values[i])| <= |data|
            && Written(Splice(Splice(data, Offset(types, i), FixedBytes(types, values, i)),
               length + TailSize(values, i), TailBytes(values[i])), types, values, i + 1)
  {
    hide FixedBytes, TailBytes, Fixed, Tail, Offset, TailSize, Splice;
    OffsetGrows(types, i + 1, |types|);
    TailGrows(values, i + 1, |types|);
    PartsStep(types, values, i);
    BothGrow(data, Offset(types, |types|), Offset(types, i), FixedBytes(types, values, i), TailSize(values, i),
        TailBytes(values[i]));
  }

  lemma {:induction false} PartsStep(types: seq<Type>, values: seq<Value>, i: nat)
    requires TypesMatch(types, values) && TupleSize(types, values) < U32 && i < |types|
    ensures Fixed(types, values, i + 1) == Fixed(types, values, i) + FixedBytes(types, values, i)
    ensures Offset(types, i + 1) == Offset(types, i) + FixedLength(types[i])
    ensures Tail(values, i + 1) == Tail(values, i) + TailBytes(values[i])
    ensures TailSize(values, i + 1) == TailSize(values, i) + |TailBytes(values[i])|
  {
  }

  /** Two writes, one in front of `length` and one behind it, each at the end of what is written there. */
  lemma {:induction false} BothGrow(data: seq<byte>, length: nat, o: nat, f: seq<byte>, k: nat, t: seq<byte>)
    requires o + |f| <= length && length + k + |t| <= |data|
    ensures var data' := Splice(Splice(data, o, f), length + k, t);
            && data'[..o + |f|] == data[..o] + f
            && data'[length..length + k + |t|] == data[length..length + k] + t
  {
  }

  /** `NewTupleFromSchema`: the size first, then every value into its place. */
  method NewTupleFromSchema(values: seq<Value>, schema: Schema) returns (tuple: Tuple)
    requires schema.Valid() && TypesMatch(TypesOf(schema.columns), values)
             && TupleSize(TypesOf(schema.columns), values) < U32
    ensures fresh(tuple) && fresh(tuple.data) && tuple.size == tuple.data.Length
    ensures tuple.data[..] == Layout(TypesOf(schema.columns), values)
  {
    hide FixedBytes, TailBytes, Written, Enc32, Serialize, Uninlined, Offset, TailSize, Layout, Size;
    ghost var types := TypesOf(schema.columns);
    SizesAreTail(types, values, |types|);
    var tupleSize := schema.length;
    for k := 0 to |schema.uninlinedColumns|
      invariant tupleSize == schema.length + SizesAt(values, schema.uninlinedColumns, k)
    {
      tupleSize := tupleSize + Size(values[schema.uninlinedColumns[k]]);
    }
    tuple := new Tuple(tupleSize);
    NothingWritten(tuple.data[..], types, values);
    var tupleEndOffset := schema.length;
    for i := 0 to |schema.columns|
      invariant fresh(tuple) && fresh(tuple.data) && tuple.size == tuple.data.Length == TupleSize(types, values)
                && schema.Valid()
      invariant tupleEndOffset == schema.length + TailSize(values, i)
      invariant Written(tuple.data[..], types, values, i)
    {
      tupleEndOffset := WriteColumn(tuple, values, schema, i, tupleEndOffset);
    }
    AllWritten(tuple.data[..], types, values);
  }

  /** One round of the loop of `NewTupleFromSchema`. */
  method WriteColumn(tuple: Tuple, values: seq<Value>, schema: Schema, i: nat, tupleEndOffset: nat)
      returns (newEnd: nat)
    requires schema.Valid() && TypesMatch(TypesOf(schema.columns), values)
             && TupleSize(TypesOf(schema.columns), values) < U32
    requires i < |schema.columns| && tupleEndOffset == schema.length + TailSize(values, i)
    requires tuple.data.Length == TupleSize(TypesOf(schema.columns), values)
             && Written(tuple.data[..], TypesOf(schema.columns), values, i)
    modifies tuple.data
    ensures newEnd == schema.length + TailSize(values, i + 1)
    ensures Written(tuple.data[..], TypesOf(schema.columns), values, i + 1)
  {
    hide FixedBytes, TailBytes, Written, Enc32, Serialize, Uninlined, Offset, TailSize, Splice, Size;
    ghost var types := TypesOf(schema.columns);
    PartsStep(types, values, i);
    WrittenNext(tuple.data[..], types, values, i);
    Pieces(types, values, i);
    if schema.columns[i].IsInlined() {
      NothingSpliced(Splice(tuple.data[..], schema.columns[i].columnOffset, FixedBytes(types, values, i)),
          tupleEndOffset);
      tuple.Copy(schema.columns[i].columnOffset, Serialize(values[i]));
      newEnd := tupleEndOffset;
    } else {
      tuple.Copy(schema.columns[i].columnOffset, Enc32(tupleEndOffset));
      tuple.Copy(tupleEndOffset, Serialize(values[i]));
      newEnd := tupleEndOffset + Size(values[i]);
    }
  }

  lemma {:induction false} Pieces(types: seq<Type>, values: seq<Value>, i: nat)
    requires TypesMatch(types, values) && TupleSize(types, values) < U32 && i < |types|
    ensures Offset(types, |types|) + TailSize(values, i) < U32
    ensures types[i] == Varchar <==> values[i].VarcharValue?
    ensures values[i].VarcharValue? ==>
              FixedBytes(types, values, i) == Enc32(Offset(types, |types|) + TailSize(values, i))
                  && TailBytes(values[i]) == Serialize(values[i])
    ensures !values[i].VarcharValue? ==>
              FixedBytes(types, values, i) == Serialize(values[i]) && TailBytes(values[i]) == []
  {
    hide Offset, TailSize, FixedBytes, TailBytes, Enc32, Serialize;
    if values[i].VarcharValue? {
      PointerAt(types, values, i);
    } else {
      InlineAt(types, values, i);
      TailRoom(types, values, i);
    }
  }

  lemma {:induction false} TailRoom(types: seq<Type>, values: seq<Value>, i: nat)
    requires TypesMatch(types, values) && TupleSize(types, values) < U32 && i < |types| && !values[i].VarcharValue?
    ensures Offset(types, |types|) + TailSize(values, i) < U32 && TailBytes(values[i]) == []
  {
    TailGrows(values, i, |values|);
  }

  lemma {:induction false} NothingSpliced(data: seq<byte>, o: nat)
    ensures o <= |data| ==> Splice(data, o, []) == data
  {
  }

  lemma {:induction false} NothingWritten(data: seq<byte>, types: seq<Type>, values: seq<Value>)
    requires TypesMatch(types, values) && TupleSize(types, values) < U32 && |data| == TupleSize(types, values)
    ensures Written(data, types, values, 0) && TailSize(values, 0) == 0
  {
  }

  lemma {:induction false} AllWritten(data: seq<byte>, types: seq<Type>, values: seq<Value>)
    requires TypesMatch(types, values) && TupleSize(types, values) < U32 && |data| == TupleSize(types, values)
    requires Written(data, types, values, |types|)
    ensures data == Layout(types, values)
  {
    var length := Offset(types, |types|);
    assert data == data[..length] + data[length..length + TailSize(values, |values|)];
  }

  /** `GenTupleForHashIndexSearch`. A Boolean column gets no value, and Go then reads past the list of values. */
  method GenTupleForHashIndexSearch(schema: Schema, colIndex: nat, keyVal: Value) returns (tuple: Tuple)
    requires schema.Valid() && colIndex < |schema.columns| && ValueOk(keyVal)
             && TypeOf(keyVal) == schema.columns[colIndex].columnType
    requires forall j | 0 <= j < |schema.columns| :: schema.columns[j].columnType != Boolean
    requires TupleSize(TypesOf(schema.columns),
             SearchValues(TypesOf(schema.columns), colIndex, keyVal, |schema.columns|)) < U32
    ensures fresh(tuple) && fresh(tuple.data) && schema.Valid()
    ensures TypesMatch(TypesOf(schema.columns),
            SearchValues(TypesOf(schema.columns), colIndex, keyVal, |schema.columns|))
    ensures tuple.data[..] == Layout(TypesOf(schema.columns),
            SearchValues(TypesOf(schema.columns), colIndex, keyVal, |schema.columns|))
  {
    hide Layout, TupleSize, Offset, Uninlined, TypesMatch;
    ghost var types := TypesOf(schema.columns);
    var values: seq<Value> := [];
    for idx := 0 to |schema.columns|
      invariant values == SearchValues(types, colIndex, keyVal, idx)
    {
      values := values + SearchValue(schema.columns[idx].columnType, idx == colIndex, keyVal);
    }
    SearchTupleWorks(types, colIndex, keyVal);
    tuple := NewTupleFromSchema(values, schema);
  }
}
