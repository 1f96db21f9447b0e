/**
 The stream buffer that turns bytes into the C++ definition of an array
 (src/base/codegen_bytearray_stream.cc).

 The functions give the text as a function of the bytes; the class is the program, with its buffer.
 The stream below is taken never to fail.
 */
module CodegenStream {
  import opened Decimals
  import opened Wrappers

  type byte = b: nat | b < 256

  const BYTES_ON_ONE_LINE: nat := 20

  // ---- The text of a definition ----

  function HexDigit(d: nat): char
    requires d < 16
  {
    "0123456789ABCDEF"[d]
  }

  // One byte, as the element of this index.
  function Literal(b: byte, index: nat): (text: string)
    ensures |text| == 6
  {
    [if index % BYTES_ON_ONE_LINE == 0 then '\n' else ' ', '0', 'x', HexDigit(b / 16), HexDigit(b % 16), ',']
  }

  // The bytes as the elements from index first on.
  function Body(bytes: seq<byte>, first: nat): string {
    if bytes == [] then "" else Literal(bytes[0], first) + Body(bytes[1..], first + 1)
  }

  function Header(name: string): string {
    "alignas(std::max_align_t) constexpr char k" + name + "_data[] = {"
  }

  function Size(name: string, count: nat): string {
    "};\nconstexpr size_t k" + name + "_size = " + Decimal(count) + ";\n"
  }

  function Trailer(name: string, count: nat): string {
    (if count != 0 then "\n" else "") + Size(name, count)
  }

  function Definition(name: string, bytes: seq<byte>): string {
    Header(name) + (Body(bytes, 0) + Trailer(name, |bytes|))
  }

  // ---- Reading the elements back ----

  function HexValue(c: char): Option<nat> {
    if '0' <= c <= '9' then Some((c - '0') as int)
    else if 'A' <= c <= 'F' then Some((c - 'A') as int + 10)
    else None
  }

  function ReadLiteral(text: string): Option<byte>
    requires |text| == 6
  {
    if (text[0] == '\n' || text[0] == ' ') && text[1..3] == "0x" && text[5] == ','
       && HexValue(text[3]).Some? && HexValue(text[3]).value < 16
       && HexValue(text[4]).Some? && HexValue(text[4]).value < 16
    then Some(16 * HexValue(text[3]).value + HexValue(text[4]).value)
    else None
  }

  // The bytes of a list of elements.
  function ReadBody(text: string): Option<seq<byte>> {
    if text == "" then Some([])
    else if |text| < 6 || ReadLiteral(text[..6]).None? || ReadBody(text[6..]).None? then None
    else Some([ReadLiteral(text[..6]).value] + ReadBody(text[6..]).value)
  }

  lemma HexUndone(d: nat)
    requires d < 16
    ensures HexValue(HexDigit(d)) == Some(d)
  {}

  lemma LiteralUndone(b: byte, index: nat)
    ensures ReadLiteral(Literal(b, index)) == Some(b)
  {
    HexUndone(b / 16);
    HexUndone(b % 16);
  }

  // The elements decode to the bytes they were made from.
  lemma {:induction false} BodyUndone(bytes: seq<byte>, first: nat)
    ensures ReadBody(Body(bytes, first)) == Some(bytes)
  {
    hide ReadLiteral, Literal;
    if bytes != [] {
      var text := Body(bytes, first);
      LiteralUndone(bytes[0], first);
      BodyUndone(bytes[1..], first + 1);
      assert text[..6] == Literal(bytes[0], first) && text[6..] == Body(bytes[1..], first + 1);
      assert [bytes[0]] + bytes[1..] == bytes;
    }
  }

  // Each element takes six characters, and a line ends before every twentieth and nowhere else.
  lemma {:induction false} LinesOfTwenty(bytes: seq<byte>, first: nat, k: nat)
    requires k < |bytes|
    ensures |Body(bytes, first)| == 6 * |bytes|
    ensures Body(bytes, first)[6 * k..6 * k + 6] == Literal(bytes[k], first + k)
    ensures '\n' in Body(bytes, first)[6 * k..6 * k + 6] <==> (first + k) % BYTES_ON_ONE_LINE == 0
  {
    LiteralAt(bytes, first, k);
    LineOfLiteral(bytes[k], first + k);
  }

  lemma LineOfLiteral(b: byte, index: nat)
    ensures '\n' in Literal(b, index) <==> index % BYTES_ON_ONE_LINE == 0
  {
    assert index % BYTES_ON_ONE_LINE == 0 ==> Literal(b, index)[0] == '\n';
    assert HexDigit(b / 16) != '\n' && HexDigit(b % 16) != '\n';
  }

  lemma {:induction false} LengthOfBody(bytes: seq<byte>, first: nat)
    ensures |Body(bytes, first)| == 6 * |bytes|
  {
    hide Literal;
    if bytes != [] {
      LengthOfBody(bytes[1..], first + 1);
    }
  }

  lemma {:induction false} LiteralAt(bytes: seq<byte>, first: nat, k: nat)
    requires k < |bytes|
    ensures |Body(bytes, first)| == 6 * |bytes|
    ensures Body(bytes, first)[6 * k..6 * k + 6] == Literal(bytes[k], first + k)
    decreases k
  {
    hide Literal;
    var text, rest := Body(bytes, first), Body(bytes[1..], first + 1);
    LengthOfBody(bytes, first);
    LengthOfBody(bytes[1..], first + 1);
    if k == 0 {
      assert text[..6] == Literal(bytes[0], first);
    } else {
      LiteralAt(bytes[1..], first + 1, k - 1);
      assert text[6 * k..6 * k + 6] == rest[6 * (k - 1)..6 * (k - 1) + 6];
    }
  }

  lemma {:induction false} BodyOfConcat(a: seq<byte>, b: seq<byte>, first: nat)
    ensures Body(a + b, first) == Body(a, first) + Body(b, first + |a|)
  {
    hide Literal, Body;
    if a == [] {
      BodyOfNothing(first);
      assert a + b == b;
    } else {
      BodyOfConcat(a[1..], b, first + 1);
      assert (a + b)[1..] == a[1..] + b;
      BodyOfNext(a, first);
      BodyOfNext(a + b, first);
    }
  }

  lemma BodyOfNext(bytes: seq<byte>, first: nat)
    requires bytes != []
    ensures Body(bytes, first) == Literal(bytes[0], first) + Body(bytes[1..], first + 1)
  {
    hide Literal;
  }

  // ---- The text, written out ----

  // Element k of a definition, 20 on a line.
  lemma ElementIs(bytes: seq<byte>, k: nat)
    requires k < |bytes|
    ensures |Body(bytes, 0)| == 6 * |bytes|
    ensures Body(bytes, 0)[6 * k..6 * k + 6]
         == [if k % 20 == 0 then '\n' else ' ', '0', 'x', "0123456789ABCDEF"[bytes[k] / 16],
             "0123456789ABCDEF"[bytes[k] % 16], ',']
  {
    LiteralAt(bytes, 0, k);
  }

  function ReadDecimal(s: string): nat
    requires forall i | 0 <= i < |s| :: '0' <= s[i] <= '9'
  {
    if s == "" then 0 else 10 * ReadDecimal(s[..|s| - 1]) + (s[|s| - 1] - '0') as int
  }

  lemma {:induction false} DecimalIsRead(n: nat)
    ensures forall i | 0 <= i < |Decimal(n)| :: '0' <= Decimal(n)[i] <= '9'
    ensures ReadDecimal(Decimal(n)) == n
    ensures if n == 0 then Decimal(n) == "0" else Decimal(n)[0] != '0'
  {
    hide Decimal, ReadDecimal;
    var last := DecimalDigit(n % 10);
    assert '0' <= last <= '9' && (last - '0') as int == n % 10 && (last == '0' <==> n % 10 == 0);
    DecimalSteps(n);
    if n >= 10 {
      DecimalIsRead(n / 10);
      ReadNext(Decimal(n / 10), last);
    } else {
      ReadNext("", last);
      assert "" + [last] == [last];
    }
  }

  lemma DecimalSteps(n: nat)
    ensures Decimal(n) == if n < 10 then [DecimalDigit(n)] else Decimal(n / 10) + [DecimalDigit(n % 10)]
  {}

  lemma ReadNext(s: string, c: char)
    requires '0' <= c <= '9' && forall i | 0 <= i < |s| :: '0' <= s[i] <= '9'
    ensures ReadDecimal("") == 0 && ReadDecimal(s + [c]) == 10 * ReadDecimal(s) + (c - '0') as int
  {
    assert (s + [c])[..|s|] == s;
  }

  // The whole of it: the elements between the two declarations, and their number.
  lemma DefinitionIs(name: string, bytes: seq<byte>) returns (size: string)
    ensures Definition(name, bytes)
         == "alignas(std::max_align_t) constexpr char k" + name + "_data[] = {" + Body(bytes, 0)
            + (if bytes == [] then "" else "\n")
            + "};\nconstexpr size_t k" + name + "_size = " + size + ";\n"
    ensures size != "" && (forall i | 0 <= i < |size| :: '0' <= size[i] <= '9')
    ensures ReadDecimal(size) == |bytes| && (size[0] == '0' ==> size == "0")
  {
    hide Body, Decimal, ReadDecimal;
    size := Decimal(|bytes|);
    DecimalIsRead(|bytes|);
  }

  // ---- The stream buffer ----

  // What has been written to the stream below, the definition that is open or was last, how many
  // elements it has, and the bytes in the buffer.
  datatype Value = Value(output: string, isOpen: bool, name: string, count: nat, pending: seq<byte>)

  function Emitted(v: Value, bytes: seq<byte>): Value {
    v.(output := v.output + Body(bytes, v.count), count := v.count + |bytes|)
  }

  // overflow(): nothing at all if no definition is open.
  function Overflowed(v: Value, c: Option<byte>): Value {
    if !v.isOpen then v
    else
      var flushed := Emitted(v, v.pending).(pending := []);
      if c.None? then flushed else Emitted(flushed, [c.value])
  }

  function Opened(v: Value, name: string): Value {
    if v.isOpen || name == "" then v
    else v.(output := v.output + Header(name), isOpen := true, name := name, count := 0)
  }

  function Closed(v: Value): Value {
    if !v.isOpen then v
    else
      var w := Overflowed(v, None);
      w.(output := w.output + Trailer(w.name, w.count), isOpen := false)
  }

  // What may be done between opening and closing.
  datatype Operation = Put(c: byte) | Write(bytes: seq<byte>) | Flush

  function Bytes(operation: Operation): seq<byte> {
    match operation
    case Put(c) => [c]
    case Write(bytes) => bytes
    case Flush => []
  }

  function Done(v: Value, capacity: nat, operation: Operation): Value {
    match operation
    case Put(c) => if |v.pending| < capacity then v.(pending := v.pending + [c]) else Overflowed(v, Some(c))
    case Write(bytes) =>
      if |v.pending| + |bytes| <= capacity then v.(pending := v.pending + bytes)
      else Emitted(Overflowed(v, None), bytes)
    case Flush => Overflowed(v, None)
  }

  function AllDone(v: Value, capacity: nat, operations: seq<Operation>): Value {
    if operations == [] then v
    else Done(AllDone(v, capacity, operations[..|operations| - 1]), capacity, operations[|operations| - 1])
  }

  function AllBytes(operations: seq<Operation>): seq<byte> {
    if operations == [] then [] else AllBytes(operations[..|operations| - 1]) + Bytes(operations[|operations| - 1])
  }

  // Opening needs a name and none open, and closing one that is open; else nothing happens.
  lemma RefusedIs(v: Value, name: string)
    ensures v.isOpen || name == "" ==> Opened(v, name) == v
    ensures !v.isOpen ==> Closed(v) == v
  {}

  // ---- The buffer is invisible ----

  // A definition is open to which these bytes have gone, written or still in the buffer.
  predicate Carries(v: Value, before: string, name: string, bytes: seq<byte>) {
    && v.isOpen && v.name == name
    && v.count + |v.pending| == |bytes|
    && v.pending == bytes[v.count..]
    && v.output == before + Header(name) + Body(bytes[..v.count], 0)
  }

  lemma EmittingCarries(v: Value, before: string, name: string, bytes: seq<byte>, more: seq<byte>)
    requires Carries(v, before, name, bytes) && v.pending == []
    ensures Carries(Emitted(v, more), before, name, bytes + more)
  {
    hide Body, Header;
    BodyOfConcat(bytes, more, 0);
    assert bytes[..v.count] == bytes && (bytes + more)[..v.count + |more|] == bytes + more;
  }

  lemma FlushingCarries(v: Value, before: string, name: string, bytes: seq<byte>)
    requires Carries(v, before, name, bytes)
    ensures Carries(Overflowed(v, None), before, name, bytes) && Overflowed(v, None).pending == []
  {
    hide Body, Header;
    BodyOfConcat(bytes[..v.count], v.pending, 0);
    assert bytes[..v.count] + v.pending == bytes && bytes[..|bytes|] == bytes;
  }

  lemma BufferingCarries(v: Value, before: string, name: string, bytes: seq<byte>, more: seq<byte>)
    requires Carries(v, before, name, bytes)
    ensures Carries(v.(pending := v.pending + more), before, name, bytes + more)
  {
    hide Body, Header;
    assert (bytes + more)[..v.count] == bytes[..v.count] && (bytes + more)[v.count..] == v.pending + more;
  }

  // Whatever is done, the bytes go to the definition in order, whatever the size of the buffer.
  lemma DoneCarries(v: Value, capacity: nat, operation: Operation, before: string, name: string, bytes: seq<byte>)
    requires Carries(v, before, name, bytes)
    ensures Carries(Done(v, capacity, operation), before, name, bytes + Bytes(operation))
  {
    hide Carries, Emitted;
    var more := Bytes(operation);
    var flushed := Overflowed(v, None);
    FlushingCarries(v, before, name, bytes);
    EmittingCarries(flushed, before, name, bytes, more);
    BufferingCarries(v, before, name, bytes, more);
    assert bytes + [] == bytes;
    assert Carries(v, before, name, bytes) ==> v.isOpen by { CarriesIsOpen(v, before, name, bytes); }
  }

  lemma CarriesIsOpen(v: Value, before: string, name: string, bytes: seq<byte>)
    ensures Carries(v, before, name, bytes) ==> v.isOpen
  {}

  lemma {:induction false} AllDoneCarries(v: Value, capacity: nat, operations: seq<Operation>,
                                          before: string, name: string, bytes: seq<byte>)
    requires Carries(v, before, name, bytes)
    ensures Carries(AllDone(v, capacity, operations), before, name, bytes + AllBytes(operations))
    decreases |operations|
  {
    hide Carries, Done, Bytes;
    if operations == [] {
      assert bytes + [] == bytes;
    } else {
      var n := |operations| - 1;
      var soFar := AllBytes(operations[..n]);
      AllDoneCarries(v, capacity, operations[..n], before, name, bytes);
      DoneCarries(AllDone(v, capacity, operations[..n]), capacity, operations[n], before, name, bytes + soFar);
      assert bytes + soFar + Bytes(operations[n]) == bytes + AllBytes(operations);
    }
  }

  // One definition, opened, filled and closed: the text is the definition of exactly the bytes put in
  // it, in order, and of those that were in the buffer before it was opened.
  lemma DefinitionIsExact(v: Value, capacity: nat, name: string, operations: seq<Operation>)
    requires !v.isOpen && name != ""
    ensures var bytes := v.pending + AllBytes(operations);
      Closed(AllDone(Opened(v, name), capacity, operations))
        == Value(v.output + Definition(name, bytes), false, name, |bytes|, [])
  {
    hide AllDone, Body, Header, Trailer;
    var start := Opened(v, name);
    var bytes := v.pending + AllBytes(operations);
    BodyOfNothing(0);
    assert Carries(start, v.output, name, v.pending);
    AllDoneCarries(start, capacity, operations, v.output, name, v.pending);
    var done := AllDone(start, capacity, operations);
    FlushingCarries(done, v.output, name, bytes);
    assert bytes[..|bytes|] == bytes;
    assert v.output + Header(name) + Body(bytes, 0) + Trailer(name, |bytes|) == v.output + Definition(name, bytes);
  }

  lemma BodyOfNothing(first: nat)
    ensures Body([], first) == ""
  {}

  // A list of definitions, each with what is done to it.
  type Variable = (string, seq<Operation>)

  function AllDefined(v: Value, capacity: nat, variables: seq<Variable>): Value
    decreases |variables|
  {
    if variables == [] then v
    else
      AllDefined(Closed(AllDone(Opened(v, variables[0].0), capacity, variables[0].1)), capacity, variables[1..])
  }

  function Definitions(variables: seq<Variable>): string {
    if variables == [] then "" else Definition(variables[0].0, AllBytes(variables[0].1)) + Definitions(variables[1..])
  }

  // Any number of definitions, with a buffer of any size.
  lemma {:induction false} DefinitionsAreExact(v: Value, capacity: nat, variables: seq<Variable>)
    requires !v.isOpen && v.pending == [] && forall k | 0 <= k < |variables| :: variables[k].0 != ""
    ensures AllDefined(v, capacity, variables).output == v.output + Definitions(variables)
    decreases |variables|
  {
    hide Definition, Closed, AllDone, Opened, AllBytes;
    if variables != [] {
      var name, operations := variables[0].0, variables[0].1;
      DefinitionIsExact(v, capacity, name, operations);
      assert v.pending + AllBytes(operations) == AllBytes(operations);
      DefinitionsAreExact(Closed(AllDone(Opened(v, name), capacity, operations)), capacity, variables[1..]);
    }
  }

  // ---- With no definition open ----

  // A write that does not fit the buffer goes out at once, outside any definition, and ahead of the
  // bytes that wait there.
  lemma StrayWrite(v: Value, capacity: nat, bytes: seq<byte>)
    requires !v.isOpen
    ensures var w := Done(v, capacity, Write(bytes));
      if |v.pending| + |bytes| <= capacity then w.output == v.output && w.pending == v.pending + bytes
      else w.output == v.output + Body(bytes, v.count) && w.pending == v.pending
  {}

  // A byte put to a full buffer is lost.
  lemma StrayPut(v: Value, capacity: nat, c: byte)
    requires !v.isOpen
    ensures Done(v, capacity, Put(c)) == if |v.pending| < capacity then v.(pending := v.pending + [c]) else v
  {}

  lemma StrayStep(v: Value, capacity: nat, operation: Operation)
    requires !v.isOpen && |v.pending| <= capacity
    ensures var w := Done(v, capacity, operation);
      && !w.isOpen && |w.pending| <= capacity
      && (|v.pending| + |Bytes(operation)| <= capacity ==> w == v.(pending := v.pending + Bytes(operation)))
  {
    assert v.pending + [] == v.pending;
  }

  // With no definition open, every byte waits in the buffer, in order and with nothing written, if
  // and only if the bytes so far fit it. Otherwise some are lost or written elsewhere.
  lemma {:induction false} StrayBytesWait(v: Value, capacity: nat, operations: seq<Operation>)
    requires !v.isOpen && |v.pending| <= capacity
    ensures var w, bytes := AllDone(v, capacity, operations), v.pending + AllBytes(operations);
      && !w.isOpen && |w.pending| <= capacity
      && (w == v.(pending := bytes) <==> |bytes| <= capacity)
      && (w.pending == bytes <==> |bytes| <= capacity)
    decreases |operations|
  {
    hide Done, Bytes;
    if operations == [] {
      assert v.pending + [] == v.pending;
    } else {
      var n := |operations| - 1;
      var before, last := AllDone(v, capacity, operations[..n]), operations[n];
      StrayBytesWait(v, capacity, operations[..n]);
      StrayStep(before, capacity, last);
      assert v.pending + AllBytes(operations[..n]) + Bytes(last) == v.pending + AllBytes(operations);
    }
  }

  // So bytes put before a definition is opened come out in it, ahead of its own, if they fit.
  lemma EarlyBytesComeFirst(v: Value, capacity: nat, early: seq<Operation>, name: string, operations: seq<Operation>)
    requires !v.isOpen && name != "" && |v.pending| + |AllBytes(early)| <= capacity
    ensures var bytes := v.pending + AllBytes(early) + AllBytes(operations);
      Closed(AllDone(Opened(AllDone(v, capacity, early), name), capacity, operations))
        == Value(v.output + Definition(name, bytes), false, name, |bytes|, [])
  {
    hide Definition, AllDone, Closed, Opened, AllBytes;
    StrayBytesWait(v, capacity, early);
    DefinitionIsExact(AllDone(v, capacity, early), capacity, name, operations);
  }

  // ---- The program ----

  class BasicCodeGenByteArrayStreamBuf {
    const buffer: array<byte>
    var pptr: nat
    var output: string
    var isOpen: bool
    var name: string
    var count: nat

    predicate Valid()
      reads this
    {
      pptr <= buffer.Length
    }

    function Current(): Value
      requires Valid()
      reads this, buffer
    {
      Value(output, isOpen, name, count, buffer[..pptr])
    }

    constructor (size: nat, outputStream: string)
      ensures Valid() && fresh(buffer) && buffer.Length == size
      ensures Current() == Value(outputStream, false, "", 0, [])
    {
      buffer := new byte[size];
      pptr, output, isOpen, name, count := 0, outputStream, false, "", 0;
    }

    // Appends the elements of the bytes, after those there are.
    method WriteBytes(bytes: seq<byte>)
      requires Valid()
      modifies this`output, this`count
      ensures Current() == Emitted(old(Current()), bytes)
    {
      hide Literal;
      var i := 0;
      assert bytes[0..] == bytes;
      while i < |bytes|
        invariant i <= |bytes| && count == old(count) + i
        invariant output + Body(bytes[i..], count) == old(output) + Body(bytes, old(count))
      {
        assert bytes[i..][1..] == bytes[i + 1..];
        output := output + Literal(bytes[i], count);
        i := i + 1;
        count := count + 1;
      }
      assert output + "" == output;
    }

    // The result says whether the return value is other than eof.
    method Overflow(c: Option<byte>) returns (ok: bool)
      requires Valid()
      modifies this
      ensures Valid() && Current() == Overflowed(old(Current()), c) && ok == isOpen
    {
      hide Body;
      if !isOpen {
        return false;
      }
      if 0 < pptr {
        WriteBytes(buffer[..pptr]);
      } else {
        BodyOfNothing(count);
      }
      if c.Some? {
        WriteBytes([c.value]);
      }
      pptr := 0;
      return true;
    }

    // std::streambuf::sputc.
    method Sputc(c: byte) returns (ok: bool)
      requires Valid()
      modifies this, buffer
      ensures Valid() && Current() == Done(old(Current()), buffer.Length, Put(c))
      ensures ok <==> old(pptr) < buffer.Length || isOpen
    {
      if pptr < buffer.Length {
        buffer[pptr] := c;
        pptr := pptr + 1;
        assert buffer[..pptr] == old(buffer[..pptr]) + [c];
        return true;
      }
      ok := Overflow(Some(c));
    }

    method Xsputn(s: seq<byte>) returns (n: nat)
      requires Valid()
      modifies this, buffer
      ensures Valid() && Current() == Done(old(Current()), buffer.Length, Write(s)) && n == |s|
    {
      hide Emitted, Overflowed;
      if |s| <= buffer.Length - pptr {
        forall i | 0 <= i < |s| {
          buffer[pptr + i] := s[i];
        }
        pptr := pptr + |s|;
        assert buffer[..pptr] == old(buffer[..pptr]) + s;
      } else {
        var _ := Overflow(None);
        WriteBytes(s);
      }
      return |s|;
    }

    method Sync() returns (ok: bool)
      requires Valid()
      modifies this
      ensures Valid() && Current() == Done(old(Current()), buffer.Length, Flush) && ok == isOpen
    {
      ok := Overflow(None);
    }

    // Refused if a definition is open or has no name.
    method OpenVarDef(varNameBase: string) returns (ok: bool)
      requires Valid()
      modifies this
      ensures Valid() && Current() == Opened(old(Current()), varNameBase)
      ensures ok <==> !old(isOpen) && varNameBase != ""
    {
      if isOpen || varNameBase == "" {
        return false;
      }
      name := varNameBase;
      output := output + "alignas(std::max_align_t) constexpr char k" + name + "_data[] = {";
      count := 0;
      isOpen := true;
      return true;
    }

    // Refused if none is open.
    method CloseVarDef() returns (ok: bool)
      requires Valid()
      modifies this
      ensures Valid() && Current() == Closed(old(Current())) && ok == old(isOpen)
    {
      hide Overflowed, Size;
      if !isOpen {
        return false;
      }
      var _ := Overflow(None);
      if count != 0 {
        output := output + "\n";
      }
      output := output + Size(name, count);
      isOpen := false;
      return true;
    }
  }
}
