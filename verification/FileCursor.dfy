/**
 The read cursor of an open file: text held as UTF-8, or bytes, read by counts, by lines and to the end
 through one byte position.
 */
module FileCursor {
  import opened Basics

  /** A Unicode scalar value. */
  type Scalar = c: int | 0 <= c < 0xD800 || 0xE000 <= c < 0x110000

  const NEWLINE: Byte := 0x0A

  datatype FileError = ClosedFile | NotReadable | NegativeSeek(target: int) | InvalidWhence(whence: int) | RelativeTextSeek

  type FileResult<T> = Result<T, FileError>

  // --------------------------------------------------------------------------- UTF-8

  /** The UTF-8 encoding of one character (RFC 3629, section 3). */
  function Utf8(c: Scalar): (u: seq<Byte>)
    ensures 1 <= |u| <= 4 && Width(u[0]) == |u|
    ensures NEWLINE in u ==> u == [NEWLINE]
    ensures !Continues(u[0]) && forall i | 0 < i < |u| :: Continues(u[i])
  {
    if c < 0x80 then [c]
    else if c < 0x800 then [0xC0 + c / 0x40, 0x80 + c % 0x40]
    else if c < 0x10000 then [0xE0 + c / 0x1000, 0x80 + c / 0x40 % 0x40, 0x80 + c % 0x40]
    else [0xF0 + c / 0x40000, 0x80 + c / 0x1000 % 0x40, 0x80 + c / 0x40 % 0x40, 0x80 + c % 0x40]
  }

  /** The character that one to four bytes spell, by the payload bits of each (RFC 3629, section 3). */
  function Payload(u: seq<int>): int {
    if |u| == 1 then u[0]
    else if |u| == 2 then (u[0] - 0xC0) * 0x40 + (u[1] - 0x80)
    else if |u| == 3 then (u[0] - 0xE0) * 0x1000 + (u[1] - 0x80) * 0x40 + (u[2] - 0x80)
    else if |u| == 4 then (u[0] - 0xF0) * 0x40000 + (u[1] - 0x80) * 0x1000 + (u[2] - 0x80) * 0x40 + (u[3] - 0x80)
    else -1
  }

  /** Encoding loses nothing. */
  lemma Utf8Spells(c: Scalar)
    ensures Payload(Utf8(c)) == c
  {
    var a := c / 0x40;
    var b := a / 0x40;
    assert c == 0x40 * a + c % 0x40 && a == 0x40 * b + a % 0x40 && b == 0x40 * (b / 0x40) + b % 0x40;
    assert c / 0x1000 == b && c / 0x40000 == b / 0x40;
  }

  /** It uses the shortest form, and the first byte tells which. */
  lemma Utf8Shape(c: Scalar)
    ensures |Utf8(c)| == if c < 0x80 then 1 else if c < 0x800 then 2 else if c < 0x10000 then 3 else 4
    ensures var first := Utf8(c)[0];
            && (|Utf8(c)| == 1 <==> first < 0x80)
            && (|Utf8(c)| == 2 <==> 0xC0 <= first < 0xE0)
            && (|Utf8(c)| == 3 <==> 0xE0 <= first < 0xF0)
            && (|Utf8(c)| == 4 <==> 0xF0 <= first)
    ensures forall i | 0 < i < |Utf8(c)| :: 0x80 <= Utf8(c)[i] < 0xC0
  {
  }

  /** A byte that is not the first of a character. */
  predicate Continues(b: Byte) {
    0x80 <= b < 0xC0
  }

  /** The length of an encoded character, from its first byte. */
  function Width(first: Byte): nat {
    if first < 0x80 then 1 else if first < 0xE0 then 2 else if first < 0xF0 then 3 else 4
  }

  // ------------------------------------------------------------------------ units of reading

  /** What one count of `read` stands for: the bytes of a character, or a single byte. */
  type Unit = seq<Byte>

  function Flatten(units: seq<Unit>): seq<Byte> {
    if units == [] then [] else Flatten(units[..|units| - 1]) + units[|units| - 1]
  }

  /** Where unit `k` starts. */
  function Offset(units: seq<Unit>, k: nat): nat
    requires k <= |units|
  {
    |Flatten(units[..k])|
  }

  /** No unit is empty, and a newline is a unit of its own. */
  predicate WellCut(units: seq<Unit>) {
    forall i | 0 <= i < |units| :: units[i] != [] && (NEWLINE in units[i] ==> units[i] == [NEWLINE])
  }

  /** The first byte of each unit tells its length. */
  predicate CharacterUnits(units: seq<Unit>) {
    forall i | 0 <= i < |units| :: units[i] != [] && Width(units[i][0]) == |units[i]|
  }

  /** The first byte of each unit, and no other, can start a character. */
  predicate Led(units: seq<Unit>) {
    forall i | 0 <= i < |units| :: units[i] != [] && !Continues(units[i][0]) && forall j | 0 < j < |units[i]| :: Continues(units[i][j])
  }

  function TextUnits(text: seq<Scalar>): (units: seq<Unit>)
    ensures |units| == |text| && WellCut(units) && CharacterUnits(units)
    ensures forall i | 0 <= i < |units| :: units[i] == Utf8(text[i])
    ensures Led(units)
  {
    seq(|text|, i requires 0 <= i < |text| => Utf8(text[i]))
  }

  function ByteUnits(bytes: seq<Byte>): (units: seq<Unit>)
    ensures |units| == |bytes| && WellCut(units)
    ensures forall i | 0 <= i < |units| :: units[i] == [bytes[i]]
  {
    seq(|bytes|, i requires 0 <= i < |bytes| => [bytes[i]])
  }

  lemma {:induction false} FlattenBytes(bytes: seq<Byte>)
    ensures Flatten(ByteUnits(bytes)) == bytes
  {
    if bytes != [] {
      FlattenBytes(bytes[..|bytes| - 1]);
      assert ByteUnits(bytes)[..|bytes| - 1] == ByteUnits(bytes[..|bytes| - 1]);
    }
  }

  /** A text's characters encoded one after another. */
  function Encoded(text: seq<Scalar>): seq<Byte> {
    if text == [] then [] else Utf8(text[0]) + Encoded(text[1..])
  }

  lemma {:induction false} EncodedIsFlat(text: seq<Scalar>)
    ensures Flatten(TextUnits(text)) == Encoded(text)
  {
    if text != [] {
      EncodedIsFlat(text[1..]);
      assert TextUnits(text) == [Utf8(text[0])] + TextUnits(text[1..]);
      FlattenJoin([Utf8(text[0])], TextUnits(text[1..]));
      FlattenOne(Utf8(text[0]));
    }
  }

  lemma FlattenAppend(a: seq<Unit>, u: Unit)
    ensures Flatten(a + [u]) == Flatten(a) + u
  {
    assert (a + [u])[..|a + [u]| - 1] == a;
  }

  lemma {:induction false} FlattenJoin(a: seq<Unit>, b: seq<Unit>)
    ensures Flatten(a + b) == Flatten(a) + Flatten(b)
    decreases |b|
  {
    if b == [] {
      assert a + b == a;
    } else {
      var init, last := b[..|b| - 1], b[|b| - 1];
      FlattenJoin(a, init);
      JoinLast(a, b);
      FlattenAppend(a + init, last);
      FlattenAppend(init, last);
      assert Flatten(a) + (Flatten(init) + last) == Flatten(a) + Flatten(init) + last;
    }
  }

  /** The bytes between two unit starts are the units between them. */
  lemma Between(units: seq<Unit>, a: nat, b: nat)
    requires a <= b <= |units|
    ensures Offset(units, a) <= Offset(units, b) <= |Flatten(units)|
    ensures Flatten(units)[Offset(units, a)..Offset(units, b)] == Flatten(units[a..b])
    ensures Offset(units, b) == Offset(units, a) + |Flatten(units[a..b])|
  {
    FlattenJoin(units[..a], units[a..b]);
    FlattenJoin(units[..b], units[b..]);
    assert units[..a] + units[a..b] == units[..b];
    assert units[..b] + units[b..] == units;
  }

  lemma SliceIs(units: seq<Unit>, bytes: seq<Byte>, a: nat, b: nat, from: nat, to: nat)
    requires a <= b <= |units| && bytes == Flatten(units) && from == Offset(units, a) && to == Offset(units, b)
    ensures from <= to <= |bytes| && bytes[from..to] == Flatten(units[a..b])
  {
    Between(units, a, b);
  }

  lemma UnitAt(units: seq<Unit>, k: nat)
    requires k < |units|
    ensures Offset(units, k + 1) == Offset(units, k) + |units[k]| <= |Flatten(units)|
    ensures Flatten(units)[Offset(units, k)..Offset(units, k + 1)] == units[k]
  {
    Between(units, k, k + 1);
    assert units[k..k + 1] == [units[k]];
    var one: seq<Unit> := [units[k]];
    var none: seq<Unit> := [];
    assert one[..0] == none;
    assert Flatten(none) == [];
  }

  lemma Ends(units: seq<Unit>)
    ensures Offset(units, 0) == 0 && Offset(units, |units|) == |Flatten(units)|
  {
    assert units[..|units|] == units;
  }

  lemma {:induction false} OffsetsGrow(units: seq<Unit>, a: nat, b: nat)
    requires WellCut(units) && a < b <= |units|
    ensures Offset(units, a) < Offset(units, b)
  {
    UnitAt(units, a);
    Between(units, a + 1, b);
  }

  predicate OnBoundary(units: seq<Unit>, pos: int) {
    exists k | 0 <= k <= |units| :: Offset(units, k) == pos
  }

  /** The unit that a byte belongs to. */
  lemma {:induction false} UnitOf(units: seq<Unit>, p: nat) returns (k: nat)
    requires p < |Flatten(units)|
    ensures k < |units| && Offset(units, k) <= p < Offset(units, k + 1)
    decreases |units|
  {
    var n := |units| - 1;
    Ends(units);
    if p >= Offset(units, n) {
      k := n;
    } else {
      k := UnitOf(units[..n], p);
      assert units[..n][..k] == units[..k] && units[..n][..k + 1] == units[..k + 1];
    }
  }

  /** A position in a text is on a boundary exactly at the end, or where the byte is the first of a character. */
  lemma BoundaryExactly(units: seq<Unit>, p: nat)
    requires Led(units) && p <= |Flatten(units)|
    ensures OnBoundary(units, p) <==> p == |Flatten(units)| || !Continues(Flatten(units)[p])
  {
    Ends(units);
    if p < |Flatten(units)| {
      var k := UnitOf(units, p);
      UnitAt(units, k);
      var bytes := Flatten(units);
      assert bytes[p] == bytes[Offset(units, k)..Offset(units, k + 1)][p - Offset(units, k)];
      if OnBoundary(units, p) {
        BoundaryStartsUnit(units, p);
      }
    } else {
      assert Offset(units, |units|) == p;
    }
  }

  lemma BoundaryStartsUnit(units: seq<Unit>, p: nat)
    requires Led(units) && OnBoundary(units, p) && p < |Flatten(units)|
    ensures !Continues(Flatten(units)[p])
  {
    Ends(units);
    var k: nat :| k <= |units| && Offset(units, k) == p;
    UnitAt(units, k);
    assert Flatten(units)[p] == Flatten(units)[Offset(units, k)..Offset(units, k + 1)][0];
  }

  // ------------------------------------------------------------------------------- lines

  /** One past the newline that ends the line at unit `k`, or the end of the file. */
  function LineEnd(units: seq<Unit>, k: nat): (e: nat)
    requires k <= |units|
    ensures k <= e <= |units| && (k < |units| ==> k < e)
    decreases |units| - k
  {
    if k == |units| then k else if units[k] == [NEWLINE] then k + 1 else LineEnd(units, k + 1)
  }

  /** A line has a newline as its last unit only, and lacks one only at the end of the file. */
  lemma {:induction false} LineShape(units: seq<Unit>, k: nat)
    requires k < |units|
    ensures var e := LineEnd(units, k);
            && (forall i | k <= i < e - 1 :: units[i] != [NEWLINE])
            && (units[e - 1] == [NEWLINE] || e == |units|)
    decreases |units| - k
  {
    if units[k] != [NEWLINE] && k + 1 < |units| {
      LineShape(units, k + 1);
    }
  }

  /** The lines from unit `k` on. */
  function Lines(units: seq<Unit>, k: nat): seq<seq<Byte>>
    requires k <= |units|
    decreases |units| - k
  {
    if k == |units| then [] else [Flatten(units[k..LineEnd(units, k)])] + Lines(units, LineEnd(units, k))
  }

  /** The lines read so far and those to come, one line further on. */
  lemma LinesFrom(units: seq<Unit>, k: nat, out: seq<seq<Byte>>)
    requires k <= |units|
    ensures k == |units| ==> out + Lines(units, k) == out
    ensures k < |units| ==>
              out + Lines(units, k) == out + [Flatten(units[k..LineEnd(units, k)])] + Lines(units, LineEnd(units, k))
  {
  }

  /** The position of the first newline byte from `from` on, or the end. */
  function ScanNewline(bytes: seq<Byte>, from: nat): (e: nat)
    requires from <= |bytes|
    ensures from <= e <= |bytes|
    decreases |bytes| - from
  {
    if from == |bytes| || bytes[from] == NEWLINE then from else ScanNewline(bytes, from + 1)
  }

  lemma {:induction false} ScanSkips(bytes: seq<Byte>, from: nat, to: nat)
    requires from <= to <= |bytes| && NEWLINE !in bytes[from..to]
    ensures ScanNewline(bytes, from) == ScanNewline(bytes, to)
    decreases |bytes| - from
  {
    if from < to {
      assert bytes[from] == bytes[from..to][0];
      assert bytes[from + 1..to] == bytes[from..to][1..];
      ScanSkips(bytes, from + 1, to);
    }
  }

  function PastNewline(bytes: seq<Byte>, e: nat): nat {
    if e < |bytes| then e + 1 else e
  }

  /** Scanning bytes finds the end of the line in units: no newline byte hides inside a character. */
  lemma {:induction false} ScanFindsLineEnd(units: seq<Unit>, k: nat)
    requires WellCut(units) && k <= |units|
    ensures var bytes := Flatten(units);
            && Offset(units, k) <= |bytes|
            && PastNewline(bytes, ScanNewline(bytes, Offset(units, k))) == Offset(units, LineEnd(units, k))
    decreases |units| - k
  {
    var bytes := Flatten(units);
    if k == |units| {
      Ends(units);
    } else {
      UnitAt(units, k);
      if units[k] == [NEWLINE] {
        assert bytes[Offset(units, k)] == bytes[Offset(units, k)..Offset(units, k + 1)][0];
      } else {
        ScanSkips(bytes, Offset(units, k), Offset(units, k + 1));
        ScanFindsLineEnd(units, k + 1);
      }
    }
  }

  // -------------------------------------------------------------------------------- counts

  /** How many units `read(n)` takes; a missing or negative count means all. */
  function Taken(n: Option<int>, remaining: nat): nat {
    if n.Some? && 0 <= n.value < remaining then n.value else remaining
  }

  lemma CharacterStep(units: seq<Unit>, k: nat)
    requires k < |units| && WellCut(units) && CharacterUnits(units)
    ensures var bytes := Flatten(units);
            && Offset(units, k) < |bytes|
            && Offset(units, k + 1) == Offset(units, k) + Width(bytes[Offset(units, k)])
  {
    UnitAt(units, k);
    assert Flatten(units)[Offset(units, k)] == Flatten(units)[Offset(units, k)..Offset(units, k + 1)][0];
  }

  lemma Inside(units: seq<Unit>, k: nat)
    requires WellCut(units) && k <= |units|
    ensures Offset(units, k) <= |Flatten(units)|
    ensures Offset(units, k) == |Flatten(units)| <==> k == |units|
  {
    Ends(units);
    if k < |units| {
      OffsetsGrow(units, k, |units|);
    }
  }

  /** The number of bytes in the next `n` characters, found by walking from one character to the next. */
  method TakeCharacters(bytes: seq<Byte>, pos: nat, n: Option<int>, ghost units: seq<Unit>, ghost index: nat) returns (take: nat)
    requires WellCut(units) && CharacterUnits(units) && index <= |units|
    requires bytes == Flatten(units) && pos == Offset(units, index)
    ensures pos + take == Offset(units, index + Taken(n, |units| - index))
  {
    Inside(units, index);
    Ends(units);
    if n.None? || n.value < 0 {
      return |bytes| - pos;
    }
    var i, chars := 0, 0;
    take := 0;
    while pos + i < |bytes|
      invariant index + chars <= |units| && chars <= n.value
      invariant pos + i == pos + take == Offset(units, index + chars) <= |bytes|
      decreases |bytes| - pos - i
    {
      if chars >= n.value {
        break;
      }
      Inside(units, index + chars);
      CharacterStep(units, index + chars);
      chars := chars + 1;
      take := i + Width(bytes[pos + i]);
      Inside(units, index + chars);
      if chars >= n.value {
        break;
      }
      i := take;
    }
    Inside(units, index + chars);
  }

  method TakeText(text: seq<Scalar>, pos: nat, n: Option<int>, ghost index: nat) returns (take: nat)
    requires index <= |TextUnits(text)| && pos == Offset(TextUnits(text), index)
    ensures pos + take == Offset(TextUnits(text), index + Taken(n, |TextUnits(text)| - index))
  {
    var units := TextUnits(text);
    take := TakeCharacters(Flatten(units), pos, n, units, index);
  }

  method TakeBytes(bytes: seq<Byte>, pos: nat, n: Option<int>, ghost units: seq<Unit>, ghost index: nat) returns (take: nat)
    requires units == ByteUnits(bytes) && index <= |units| && pos == Offset(units, index)
    ensures pos + take == Offset(units, index + Taken(n, |units| - index))
  {
    ByteOffsets(bytes, index);
    take := if n.Some? && n.value >= 0 then Least(|bytes| - pos, n.value) else |bytes| - pos;
    ByteOffsets(bytes, index + take);
  }

  lemma ByteOffsets(bytes: seq<Byte>, k: nat)
    requires k <= |bytes|
    ensures Offset(ByteUnits(bytes), k) == k
  {
    assert ByteUnits(bytes)[..k] == ByteUnits(bytes[..k]);
    FlattenBytes(bytes[..k]);
  }

  // ---------------------------------------------------------------------------------- seeking

  /** Where a seek on a readable file goes. */
  function SeekTarget(binary: bool, pos: nat, len: nat, offset: int, whence: int): FileResult<nat> {
    if whence == 0 then
      if offset < 0 then Err(NegativeSeek(offset)) else Ok(Least(offset, len))
    else if whence != 1 && whence != 2 then Err(InvalidWhence(whence))
    else if binary then
      var target := I64((if whence == 1 then pos else len) + offset);
      if target < 0 then Err(NegativeSeek(target)) else Ok(Least(target, len))
    else if offset != 0 then Err(RelativeTextSeek)
    else Ok(if whence == 1 then pos else len)
  }

  /**
   Seeking in a binary file from the cursor or the end: the sum if it lies in the content, the end if beyond,
   and an error if negative, as long as the sum fits a word; a text file goes only to the cursor or the end.
   */
  lemma RelativeSeekExactly(binary: bool, pos: nat, len: nat, offset: int, whence: int)
    requires whence == 1 || whence == 2
    ensures var from := if whence == 1 then pos else len;
            var r := SeekTarget(binary, pos, len, offset, whence);
            if !binary then r == if offset == 0 then Ok(from) else Err(RelativeTextSeek)
            else FitsI64(from + offset) ==>
              && (from + offset < 0 ==> r == Err(NegativeSeek(from + offset)))
              && (0 <= from + offset <= len ==> r == Ok(from + offset))
              && (from + offset > len ==> r == Ok(len))
  {
  }

  /** Seeking from the start: to the offset or the end, and never below the start. */
  lemma AbsoluteSeekExactly(binary: bool, pos: nat, len: nat, offset: int)
    ensures var r := SeekTarget(binary, pos, len, offset, 0);
            && (offset < 0 ==> r == Err(NegativeSeek(offset)))
            && (0 <= offset <= len ==> r == Ok(offset))
            && (offset > len ==> r == Ok(len))
    ensures forall whence | whence < 0 || whence > 2 :: SeekTarget(binary, pos, len, offset, whence) == Err(InvalidWhence(whence))
  {
  }

  function Least(a: nat, b: nat): nat {
    if a < b then a else b
  }

  method PastNextNewline(bytes: seq<Byte>, from: nat) returns (end: nat)
    requires from <= |bytes|
    ensures end == PastNewline(bytes, ScanNewline(bytes, from))
  {
    end := from;
    while end < |bytes| && bytes[end] != NEWLINE
      invariant from <= end <= |bytes| && ScanNewline(bytes, from) == ScanNewline(bytes, end)
    {
      end := end + 1;
    }
    if end < |bytes| {
      end := end + 1;
    }
  }

  // ---------------------------------------------------------------------------------- the file

  class File {
    const binary: bool
    const content: seq<Scalar>
    const contentBytes: seq<Byte>
    const readable: bool
    var pos: nat
    var closed: bool
    /** The number of whole units before the cursor, when it is on a boundary. */
    ghost var index: nat

    ghost function Units(): (units: seq<Unit>)
      ensures WellCut(units)
    {
      if binary then ByteUnits(contentBytes) else TextUnits(content)
    }

    function Bytes(): seq<Byte> {
      if binary then contentBytes else Flatten(TextUnits(content))
    }

    lemma BytesAreUnits()
      ensures Bytes() == Flatten(Units())
    {
      FlattenBytes(contentBytes);
    }

    /** The cursor is on a boundary. */
    ghost predicate Valid()
      reads this
    {
      index <= |Units()| && pos == Offset(Units(), index)
    }

    constructor (binary: bool, content: seq<Scalar>, contentBytes: seq<Byte>, readable: bool)
      ensures Valid() && index == 0 && !closed
      ensures this.binary == binary && this.content == content && this.contentBytes == contentBytes && this.readable == readable
    {
      this.binary := binary;
      this.content := content;
      this.contentBytes := contentBytes;
      this.readable := readable;
      pos := 0;
      closed := false;
      index := 0;
    }

    method Close()
      modifies this`closed
      ensures closed
    {
      closed := true;
    }

    /** `tell()` on a file open for reading. */
    method Tell() returns (r: FileResult<nat>)
      requires readable
      ensures r == if closed then Err(ClosedFile) else Ok(pos)
    {
      r := if closed then Err(ClosedFile) else Ok(pos);
    }

    /** `seek(offset, whence)` on a file open for reading. The cursor may be, and may end, inside a character. */
    method Seek(offset: int, whence: int) returns (r: FileResult<nat>)
      requires pos <= |Bytes()| && readable
      modifies this`pos, this`index
      ensures pos <= |Bytes()|
      ensures r == if closed then Err(ClosedFile) else SeekTarget(binary, old(pos), |Bytes()|, offset, whence)
      ensures pos == if r.Ok? then r.value else old(pos)
      ensures Valid() <==> OnBoundary(Units(), pos)
    {
      if closed {
        r := Err(ClosedFile);
      } else {
        r := SeekTarget(binary, pos, |Bytes()|, offset, whence);
        pos := if r.Ok? then r.value else pos;
      }
      ghost var units := Units();
      if k: nat :| k <= |units| && Offset(units, k) == pos {
        index := k;
      }
    }

    predicate Open()
      reads this
    {
      !closed && readable
    }

    /** `read(n)`: the next `n` characters or bytes, or as many as remain. */
    method Read(n: Option<int>) returns (r: FileResult<seq<Byte>>)
      requires Valid()
      modifies this`pos, this`index
      ensures Valid()
      ensures closed ==> r == Err(ClosedFile)
      ensures !closed && !readable ==> r == Err(NotReadable)
      ensures closed || !readable ==> index == old(index)
      ensures !closed && readable ==>
                && (n.None? || n.value < 0 || n.value >= |Units()| - old(index) ==> index == |Units()|)
                && (n.Some? && 0 <= n.value < |Units()| - old(index) ==> index == old(index) + n.value)
                && r == Ok(Flatten(Units()[old(index)..index]))
    {
      if closed {
        return Err(ClosedFile);
      }
      if !readable {
        return Err(NotReadable);
      }
      ghost var next := index + Taken(n, |Units()| - index);
      var take := TakeUnits(n);
      var out := Advance(take, next);
      r := Ok(out);
    }

    /** The units between two places are those of the content between them: its bytes, or its characters. */
    lemma ContentBetween(a: nat, b: nat)
      requires a <= b <= |Units()|
      ensures binary ==> |Units()| == |contentBytes| && Offset(Units(), a) == a && Flatten(Units()[a..b]) == contentBytes[a..b]
      ensures !binary ==> |Units()| == |content| && Flatten(Units()[a..b]) == Encoded(content[a..b])
    {
      if binary {
        ByteOffsets(contentBytes, a);
        ByteOffsets(contentBytes, b);
        assert Units()[a..b] == ByteUnits(contentBytes[a..b]);
        FlattenBytes(contentBytes[a..b]);
      } else {
        assert Units()[a..b] == TextUnits(content[a..b]);
        EncodedIsFlat(content[a..b]);
      }
    }

    /** Hands out the next `take` bytes. */
    method Advance(take: nat, ghost next: nat) returns (out: seq<Byte>)
      requires Valid() && index <= next <= |Units()| && pos + take == Offset(Units(), next)
      modifies this`pos, this`index
      ensures Valid() && index == next
      ensures out == Flatten(Units()[old(index)..next])
    {
      BytesAreUnits();
      var bytes := Bytes();
      SliceIs(Units(), bytes, index, next, pos, pos + take);
      out := bytes[pos..pos + take];
      pos := pos + take;
      index := next;
    }

    /** How many bytes the next `n` units take. */
    method TakeUnits(n: Option<int>) returns (take: nat)
      requires Valid()
      ensures pos + take == Offset(Units(), index + Taken(n, |Units()| - index))
    {
      if binary {
        take := TakeBytes(contentBytes, pos, n, ByteUnits(contentBytes), index);
      } else {
        take := TakeText(content, pos, n, index);
      }
    }

    /** The next line with its newline, or none at the end of the file. */
    method ReadLineValue() returns (r: FileResult<Option<seq<Byte>>>)
      requires Valid()
      modifies this`pos, this`index
      ensures Valid()
      ensures !Open() ==> r == Err(if closed then ClosedFile else NotReadable) && index == old(index)
      ensures Open() ==>
                && index == LineEnd(Units(), old(index))
                && r == Ok(if old(index) == |Units()| then None else Some(Flatten(Units()[old(index)..index])))
    {
      if closed {
        return Err(ClosedFile);
      }
      if !readable {
        return Err(NotReadable);
      }
      ghost var units := Units();
      BytesAreUnits();
      var bytes := Bytes();
      Inside(units, index);
      if pos >= |bytes| {
        return Ok(None);
      }
      var end := PastNextNewline(bytes, pos);
      ScanFindsLineEnd(units, index);
      Between(units, index, LineEnd(units, index));
      var line := Advance(end - pos, LineEnd(units, index));
      r := Ok(Some(line));
    }

    /** `readlines()`: every line up to the end of the file. */
    method ReadLines() returns (r: FileResult<seq<seq<Byte>>>)
      requires Valid()
      modifies this`pos, this`index
      ensures Valid()
      ensures !Open() ==> r == Err(if closed then ClosedFile else NotReadable) && index == old(index)
      ensures Open() ==> index == |Units()| && r == Ok(Lines(Units(), old(index)))
    {
      var out: seq<seq<Byte>> := [];
      while true
        invariant Valid() && (!Open() ==> index == old(index))
        invariant Open() ==> Lines(Units(), old(index)) == out + Lines(Units(), index)
        decreases |Units()| - index
      {
        LinesFrom(Units(), index, out);
        var line := ReadLineValue();
        match line
        case Err(e) =>
          return Err(e);
        case Ok(None) =>
          return Ok(out);
        case Ok(Some(v)) =>
          out := out + [v];
      }
    }
  }

  // -------------------------------------------------------------------------------- whole runs

  datatype Op = ReadOp(n: Option<int>) | ReadLineOp | ReadLinesOp

  /** Where an operation leaves the cursor, in units. */
  function After(units: seq<Unit>, k: nat, op: Op): (next: nat)
    requires k <= |units|
    ensures k <= next <= |units|
  {
    match op
    case ReadOp(n) => k + Taken(n, |units| - k)
    case ReadLineOp => LineEnd(units, k)
    case ReadLinesOp => |units|
  }

  /** The pieces an operation hands out. */
  function Pieces(units: seq<Unit>, k: nat, op: Op): seq<seq<Byte>>
    requires k <= |units|
  {
    match op
    case ReadLinesOp => Lines(units, k)
    case _ => [Flatten(units[k..After(units, k, op)])]
  }

  lemma FlattenOne(piece: seq<Byte>)
    ensures Flatten([piece]) == piece
  {
    var one: seq<Unit> := [piece];
    var none: seq<Unit> := [];
    assert one[..0] == none && Flatten(none) == [];
  }

  /** The lines of the rest of a file are the rest of the file. */
  lemma {:induction false} LinesConcatenate(units: seq<Unit>, k: nat)
    requires k <= |units|
    ensures Flatten(Lines(units, k)) == Flatten(units[k..])
    decreases |units| - k
  {
    if k < |units| {
      var e := LineEnd(units, k);
      var line := Flatten(units[k..e]);
      LinesConcatenate(units, e);
      FlattenJoin([line], Lines(units, e));
      FlattenOne(line);
      FlattenJoin(units[k..e], units[e..]);
      assert units[k..e] + units[e..] == units[k..];
    } else {
      assert units[k..] == [];
    }
  }

  lemma PiecesConcatenate(units: seq<Unit>, k: nat, op: Op)
    requires k <= |units|
    ensures Flatten(Pieces(units, k, op)) == Flatten(units[k..After(units, k, op)])
  {
    if op.ReadLinesOp? {
      LinesConcatenate(units, k);
      assert units[k..|units|] == units[k..];
    } else {
      FlattenOne(Flatten(units[k..After(units, k, op)]));
    }
  }

  /** A newline at the very end or nowhere. */
  predicate LineShaped(line: seq<Byte>) {
    line != [] && forall i | 0 <= i < |line| - 1 :: line[i] != NEWLINE
  }

  predicate Terminated(line: seq<Byte>) {
    line != [] && line[|line| - 1] == NEWLINE
  }

  predicate LinesShaped(lines: seq<seq<Byte>>) {
    && (forall n | 0 <= n < |lines| :: LineShaped(lines[n]))
    && (forall n | 0 <= n < |lines| - 1 :: Terminated(lines[n]))
  }

  /** Each line `readlines` returns has a newline at its very end; only the last may lack it. */
  lemma {:induction false} LinesShape(units: seq<Unit>, k: nat)
    requires WellCut(units) && k <= |units|
    ensures LinesShaped(Lines(units, k))
    decreases |units| - k
  {
    if k < |units| {
      var e := LineEnd(units, k);
      LinesShape(units, e);
      OneLine(units, k);
      var line, rest := Flatten(units[k..e]), Lines(units, e);
      assert e < |units| || rest == [];
      assert Lines(units, k) == [line] + rest;
      ShapedCons(line, rest);
    }
  }

  lemma ShapedCons(line: seq<Byte>, rest: seq<seq<Byte>>)
    requires LinesShaped(rest) && LineShaped(line) && (rest != [] ==> Terminated(line))
    ensures LinesShaped([line] + rest)
  {
    var lines := [line] + rest;
    assert forall n | 0 < n < |lines| :: lines[n] == rest[n - 1];
  }

  lemma {:induction false} NoNewlineWithin(units: seq<Unit>)
    requires WellCut(units) && forall i | 0 <= i < |units| :: units[i] != [NEWLINE]
    ensures NEWLINE !in Flatten(units)
  {
    if units != [] {
      NoNewlineWithin(units[..|units| - 1]);
    }
  }

  lemma OneLine(units: seq<Unit>, k: nat)
    requires WellCut(units) && k < |units|
    ensures var e := LineEnd(units, k); LineShaped(Flatten(units[k..e])) && (e == |units| || Terminated(Flatten(units[k..e])))
  {
    var e := LineEnd(units, k);
    LineShape(units, k);
    NoNewlineWithin(units[k..e - 1]);
    assert units[k..e] == units[k..e - 1] + [units[e - 1]];
    FlattenAppend(units[k..e - 1], units[e - 1]);
    ShapeOfLine(Flatten(units[k..e - 1]), units[e - 1]);
  }

  lemma ShapeOfLine(before: seq<Byte>, last: Unit)
    requires NEWLINE !in before && last != [] && (NEWLINE in last ==> last == [NEWLINE])
    ensures LineShaped(before + last) && (last == [NEWLINE] ==> Terminated(before + last))
  {
    if last != [NEWLINE] {
      assert NEWLINE !in before + last;
    }
  }

  /** Where a run of operations leaves the cursor, and what it hands out. */
  function RunAfter(units: seq<Unit>, k: nat, ops: seq<Op>): (next: nat)
    requires k <= |units|
    ensures k <= next <= |units|
  {
    if ops == [] then k else After(units, RunAfter(units, k, ops[..|ops| - 1]), ops[|ops| - 1])
  }

  function RunPieces(units: seq<Unit>, k: nat, ops: seq<Op>): seq<seq<Byte>>
    requires k <= |units|
  {
    if ops == [] then []
    else
      var init := ops[..|ops| - 1];
      RunPieces(units, k, init) + Pieces(units, RunAfter(units, k, init), ops[|ops| - 1])
  }

  /**
   Runs any sequence of reads on an open file. What they hand out, put together, is exactly the content
   between where the cursor was and where it is, and the cursor is on a boundary throughout.
   */
  method Perform(f: File, ops: seq<Op>) returns (pieces: seq<seq<Byte>>)
    requires f.Valid() && f.Open()
    modifies f
    ensures f.Valid() && f.Open() && f.index == RunAfter(f.Units(), old(f.index), ops)
    ensures pieces == RunPieces(f.Units(), old(f.index), ops)
    ensures Flatten(pieces) == Flatten(f.Units()[old(f.index)..f.index])
  {
    ghost var units, start := f.Units(), f.index;
    pieces := [];
    assert units[start..start] == [];
    for n := 0 to |ops|
      invariant f.Valid() && f.Open() && f.index == RunAfter(units, start, ops[..n])
      invariant pieces == RunPieces(units, start, ops[..n])
      invariant Flatten(pieces) == Flatten(units[start..f.index])
    {
      ghost var k := f.index;
      assert ops[..n + 1][..n] == ops[..n];
      var next := Execute(f, ops[n]);
      PiecesConcatenate(units, k, ops[n]);
      RunStep(units, start, k, f.index, pieces, next);
      pieces := pieces + next;
    }
    assert ops[..|ops|] == ops;
  }

  lemma RunStep(units: seq<Unit>, start: nat, k: nat, after: nat, pieces: seq<seq<Byte>>, next: seq<seq<Byte>>)
    requires start <= k <= after <= |units|
    requires Flatten(pieces) == Flatten(units[start..k]) && Flatten(next) == Flatten(units[k..after])
    ensures Flatten(pieces + next) == Flatten(units[start..after])
  {
    assert units[start..k] + units[k..after] == units[start..after];
    JoinBoth(pieces, next, units[start..k], units[k..after]);
  }

  lemma JoinBoth(a: seq<Unit>, b: seq<Unit>, c: seq<Unit>, d: seq<Unit>)
    requires Flatten(a) == Flatten(c) && Flatten(b) == Flatten(d)
    ensures Flatten(a + b) == Flatten(c + d)
  {
    FlattenJoin(a, b);
    FlattenJoin(c, d);
  }

  /** One operation; `readline` at the end of the file gives an empty piece. */
  method Execute(f: File, op: Op) returns (pieces: seq<seq<Byte>>)
    requires f.Valid() && f.Open()
    modifies f`pos, f`index
    ensures f.Valid() && f.index == After(f.Units(), old(f.index), op)
    ensures pieces == Pieces(f.Units(), old(f.index), op)
  {
    match op
    case ReadOp(n) =>
      var r := f.Read(n);
      pieces := [r.value];
    case ReadLineOp =>
      var r := f.ReadLineValue();
      assert f.Units()[f.index..f.index] == [];
      pieces := [if r.value.Some? then r.value.value else []];
    case ReadLinesOp =>
      var r := f.ReadLines();
      pieces := r.value;
  }

  // ------------------------------------------------------------------------------- seeking

  lemma SameIndex(units: seq<Unit>, a: nat, b: nat)
    requires WellCut(units) && a <= |units| && b <= |units| && Offset(units, a) == Offset(units, b)
    ensures a == b
  {
    if a < b {
      OffsetsGrow(units, a, b);
    } else if b < a {
      OffsetsGrow(units, b, a);
    }
  }

  /** Telling, reading whatever, and seeking back to where one was is back at the same character. */
  method TellReadSeek(f: File, ops: seq<Op>) returns (pieces: seq<seq<Byte>>)
    requires f.Valid() && f.Open()
    modifies f
    ensures f.Valid() && f.Open() && f.index == old(f.index) && f.pos == old(f.pos)
    ensures pieces == RunPieces(f.Units(), old(f.index), ops)
  {
    ghost var units, start := f.Units(), f.index;
    var told := f.Tell();
    pieces := Perform(f, ops);
    f.BytesAreUnits();
    Inside(units, start);
    Inside(units, f.index);
    var r := f.Seek(told.value, 0);
    assert OnBoundary(units, f.pos) by { assert Offset(units, start) == f.pos; }
    SameIndex(units, start, f.index);
  }

  /**
   A text seek leaves the cursor on a character exactly when the byte it goes to, unless that is the end, is
   the first of a character.
   */
  lemma TextSeekOnBoundaryExactly(text: seq<Scalar>, pos: nat, offset: int, whence: int)
    requires pos <= |Flatten(TextUnits(text))| && SeekTarget(false, pos, |Flatten(TextUnits(text))|, offset, whence).Ok?
    ensures var bytes := Flatten(TextUnits(text));
            OnBoundary(TextUnits(text), SeekTarget(false, pos, |bytes|, offset, whence).value)
            <==> && (whence == 0 ==> offset >= |bytes| || !Continues(bytes[offset]))
                 && (whence == 1 ==> pos == |bytes| || !Continues(bytes[pos]))
  {
    BoundaryExactly(TextUnits(text), SeekTarget(false, pos, |Flatten(TextUnits(text))|, offset, whence).value);
  }
}
