/**
 The CSV splitter (src/base/util.cc): fields separated by commas, quoted or not, with blanks before
 a field skipped. It works in a copy of its input, moving the characters of a quoted field down over
 the doubled quotes.
 */
module SplitCsv {

  predicate IsBlank(c: char) {
    c == ' ' || c == '\t'
  }

  // ---- The fields of a line ----

  function DropBlanks(s: string): (t: string)
    ensures |t| <= |s| && (t != "" ==> !IsBlank(t[0]))
  {
    if s != "" && IsBlank(s[0]) then DropBlanks(s[1..]) else s
  }

  // Where the first comma is; the length if there is none.
  function CommaAt(s: string): (n: nat)
    ensures n <= |s| && (n < |s| ==> s[n] == ',')
  {
    if s == "" || s[0] == ',' then 0 else 1 + CommaAt(s[1..])
  }

  lemma {:induction false} NoCommaBefore(s: string)
    ensures ',' !in s[..CommaAt(s)]
  {
    if s != "" && s[0] != ',' {
      NoCommaBefore(s[1..]);
      assert s[..CommaAt(s)] == [s[0]] + s[1..][..CommaAt(s[1..])];
    }
  }

  function AfterComma(s: string): (t: string)
    ensures |t| <= |s| && (s != "" ==> |t| < |s|)
  {
    var n := CommaAt(s);
    if n < |s| then s[n + 1..] else ""
  }

  datatype Cut = Cut(field: string, rest: string)

  // The text up to the closing quote, a doubled quote standing for one; and what follows the quote.
  function Quoted(s: string): (r: Cut)
    ensures |r.field| + |r.rest| <= |s|
    ensures r.rest != "" ==> |r.field| + |r.rest| < |s|
    decreases |s|
  {
    if s == "" then Cut("", "")
    else if s[0] != '"' then var r := Quoted(s[1..]); Cut([s[0]] + r.field, r.rest)
    else if |s| == 1 || s[1] != '"' then Cut("", s[1..])
    else var r := Quoted(s[2..]); Cut("\"" + r.field, r.rest)
  }

  // An empty field follows if the place where the field ends is a comma and the last of the line.
  function EmptyAtEnd(s: string, end: nat): seq<string> {
    if end + 1 == |s| && s[end] == ',' then [""] else []
  }

  function Fields(s: string): seq<string>
    decreases |s|
  {
    if s == "" then []
    else
      var t := DropBlanks(s);
      if t != "" && t[0] == '"' then
        var cut := Quoted(t[1..]);
        [cut.field] + EmptyAtEnd(t[1..], |cut.field|) + Fields(AfterComma(cut.rest))
      else
        [t[..CommaAt(t)]] + EmptyAtEnd(t, CommaAt(t)) + Fields(AfterComma(t))
  }

  // ---- Lines made of fields ----

  // A field as it is written: as it stands, or in quotes with its own quotes doubled.
  datatype Cell = Bare(text: string) | InQuotes(text: string)

  function DoubledChar(c: char): string {
    if c == '"' then ['"', '"'] else [c]
  }

  function Doubled(s: string): string {
    if s == "" then "" else DoubledChar(s[0]) + Doubled(s[1..])
  }

  function CellText(cell: Cell): string {
    if cell.Bare? then cell.text else "\"" + Doubled(cell.text) + "\""
  }

  function Join(cells: seq<Cell>): string {
    if cells == [] then ""
    else if |cells| == 1 then CellText(cells[0])
    else CellText(cells[0]) + ([','] + Join(cells[1..]))
  }

  function Texts(cells: seq<Cell>): (texts: seq<string>)
    ensures |texts| == |cells|
  {
    seq(|cells|, i requires 0 <= i < |cells| => cells[i].text)
  }

  // What can stand as it is: no comma in it, and no blank or quote in front.
  predicate Plain(s: string) {
    ',' !in s && (s != "" ==> !IsBlank(s[0]) && s[0] != '"')
  }

  predicate WellWritten(cells: seq<Cell>) {
    forall i | 0 <= i < |cells| :: cells[i].Bare? ==> Plain(cells[i].text)
  }

  // The last field is bare and empty, and alone or after a quoted one.
  predicate LosesLast(cells: seq<Cell>) {
    cells != [] && cells[|cells| - 1] == Bare("") && (|cells| == 1 || cells[|cells| - 2].InQuotes?)
  }

  lemma QuotedOfNext(c: char, s: string)
    ensures c != '"' ==> Quoted([c] + s) == Cut([c] + Quoted(s).field, Quoted(s).rest)
    ensures Quoted(['"', '"'] + s) == Cut(['"'] + Quoted(s).field, Quoted(s).rest)
  {
    assert ([c] + s)[1..] == s;
    assert (['"', '"'] + s)[2..] == s;
  }

  lemma QuotedOfEnd(t: string)
    requires t == "" || t[0] != '"'
    ensures Quoted(['"'] + t) == Cut("", t)
  {
    assert (['"'] + t)[1..] == t;
  }

  lemma QuotedOfDoubledChar(c: char, d: string, q: string)
    ensures Quoted(DoubledChar(c) + d + q) == Cut([c] + Quoted(d + q).field, Quoted(d + q).rest)
  {
    hide Quoted;
    Associative(DoubledChar(c), d, q);
    QuotedOfNext(c, d + q);
  }

  lemma {:induction false} QuotedUndoesDoubled(s: string, t: string)
    requires t == "" || t[0] != '"'
    ensures Quoted(Doubled(s) + (['"'] + t)) == Cut(s, t)
    decreases |s|
  {
    hide Quoted, DoubledChar;
    if s == "" {
      assert Doubled(s) + (['"'] + t) == ['"'] + t;
      QuotedOfEnd(t);
    } else {
      QuotedUndoesDoubled(s[1..], t);
      QuotedOfDoubledChar(s[0], Doubled(s[1..]), ['"'] + t);
      assert [s[0]] + s[1..] == s;
    }
  }

  lemma Associative(a: string, b: string, c: string)
    ensures a + b + c == a + (b + c)
  {}

  lemma {:induction false} CommaAfter(s: string, t: string)
    requires ',' !in s && (t == "" || t[0] == ',')
    ensures CommaAt(s + t) == |s|
    ensures AfterComma(s + t) == if t == "" then "" else t[1..]
  {
    if s == "" {
      assert s + t == t;
    } else {
      CommaAfter(s[1..], t);
      assert (s + t)[1..] == s[1..] + t;
    }
    var u := s + t;
    assert t != "" ==> u[|s| + 1..] == t[1..];
  }

  lemma FieldsOfUnquoted(s: string)
    requires s != "" && !IsBlank(s[0]) && s[0] != '"'
    ensures Fields(s) == [s[..CommaAt(s)]] + EmptyAtEnd(s, CommaAt(s)) + Fields(AfterComma(s))
  {
    hide CommaAt, AfterComma, EmptyAtEnd;
    assert DropBlanks(s) == s;
  }

  lemma FieldsOfQuoted(u: string)
    ensures Fields(['"'] + u)
         == [Quoted(u).field] + EmptyAtEnd(u, |Quoted(u).field|) + Fields(AfterComma(Quoted(u).rest))
  {
    hide Quoted, AfterComma, EmptyAtEnd;
    var s := ['"'] + u;
    assert DropBlanks(s) == s && s[1..] == u;
  }

  // What a cell at the head of a line is split into, when nothing or a comma follows.
  function FieldsAfter(t: string): seq<string> {
    if t == "" then [] else Fields(t[1..])
  }

  lemma FieldsOfBare(text: string, t: string)
    requires Plain(text) && (t == "" || t[0] == ',') && text + t != ""
    ensures Fields(text + t) == [text] + (if t == "," then [""] else []) + FieldsAfter(t)
  {
    hide Fields, CommaAt, AfterComma;
    var s := text + t;
    CommaAfter(text, t);
    NoFields();
    assert s[0] == if text == "" then t[0] else text[0];
    FieldsOfUnquoted(s);
    assert s[..|text|] == text;
    assert t != "" ==> s[|text|] == t[0];
  }

  lemma FieldsOfInQuotes(text: string, t: string)
    requires t == "" || t[0] == ','
    ensures Fields(['"'] + (Doubled(text) + (['"'] + t))) == [text] + FieldsAfter(t)
  {
    hide Fields, CommaAt, AfterComma, Quoted, Doubled, EmptyAtEnd;
    FieldsOfQuoted(Doubled(text) + (['"'] + t));
    QuotedUndoesDoubled(text, t);
    DoubledIsNoShorter(text);
    NoEmptyAfterQuote(Doubled(text), t, |text|);
    CommaAfter("", t);
    NoFields();
    assert "" + t == t;
  }

  lemma FieldsOfCell(cell: Cell, t: string)
    requires cell.Bare? ==> Plain(cell.text)
    requires (t == "" || t[0] == ',') && CellText(cell) + t != ""
    ensures Fields(CellText(cell) + t) == [cell.text] + (if cell.Bare? && t == "," then [""] else []) + FieldsAfter(t)
  {
    hide Fields, Doubled, Plain, FieldsAfter;
    if cell.Bare? {
      FieldsOfBare(cell.text, t);
    } else {
      FieldsOfInQuotes(cell.text, t);
      assert CellText(cell) + t == ['"'] + (Doubled(cell.text) + (['"'] + t));
    }
  }

  lemma {:induction false} DoubledIsNoShorter(s: string)
    ensures |s| <= |Doubled(s)|
  {
    if s != "" {
      DoubledIsNoShorter(s[1..]);
    }
  }

  lemma NoEmptyAfterQuote(d: string, t: string, end: nat)
    requires end <= |d|
    ensures EmptyAtEnd(d + (['"'] + t), end) == []
  {
    var s := d + (['"'] + t);
    assert s[|d|] == '"';
  }

  // Splitting undoes joining, but for a bare empty field at the end of the line where that is
  // alone or follows a quoted field: this one is lost, and nothing else.
  lemma {:induction false} SplitUndoesJoin(cells: seq<Cell>)
    requires WellWritten(cells)
    ensures Fields(Join(cells)) == if LosesLast(cells) then Texts(cells)[..|cells| - 1] else Texts(cells)
    decreases |cells|
  {
    hide Fields, CellText, Plain, Texts, FieldsAfter, LosesLast;
    if |cells| <= 1 {
      SplitUndoesJoinOfOne(cells);
    } else {
      var rest := cells[1..];
      var t := [','] + Join(rest);
      SplitUndoesJoin(rest);
      FieldsOfCell(cells[0], t);
      assert t[1..] == Join(rest);
      JoinIsEmpty(rest);
      TextsOfNext(cells);
      LastOfNext(cells);
      AfterTheComma(t);
    }
  }

  lemma AfterTheComma(t: string)
    requires t != ""
    ensures FieldsAfter(t) == Fields(t[1..])
  {}

  lemma SplitUndoesJoinOfOne(cells: seq<Cell>)
    requires WellWritten(cells) && |cells| <= 1
    ensures Fields(Join(cells)) == if LosesLast(cells) then Texts(cells)[..|cells| - 1] else Texts(cells)
  {
    hide Fields, CellText, Plain;
    NoFields();
    if cells != [] {
      OnlyBareIsEmpty(cells[0]);
      assert CellText(cells[0]) + "" == CellText(cells[0]);
      if cells[0] != Bare("") {
        FieldsOfCell(cells[0], "");
      }
    }
  }

  lemma JoinIsEmpty(cells: seq<Cell>)
    requires cells != []
    ensures Join(cells) == "" <==> cells == [Bare("")]
  {
    hide CellText;
    OnlyBareIsEmpty(cells[0]);
  }

  lemma TextsOfNext(cells: seq<Cell>)
    requires cells != []
    ensures Texts(cells) == [cells[0].text] + Texts(cells[1..])
    ensures Texts([Bare("")]) == [""]
  {}

  // Whether the rest loses its last field is whether the whole does, but for a rest that is one
  // bare empty field: a bare field in front saves it.
  lemma LastOfNext(cells: seq<Cell>)
    requires |cells| >= 2
    ensures if cells[1..] == [Bare("")] then LosesLast(cells[1..]) && LosesLast(cells) == cells[0].InQuotes?
            else LosesLast(cells) == LosesLast(cells[1..])
  {
    var rest := cells[1..];
    assert rest[|rest| - 1] == cells[|cells| - 1];
    if |rest| >= 2 {
      assert rest[|rest| - 2] == cells[|cells| - 2];
    }
  }

  lemma NoFields()
    ensures Fields("") == []
  {}

  // ---- Any line at all ----

  lemma {:induction false} BlanksAreDropped(blanks: string, t: string)
    requires (forall i | 0 <= i < |blanks| :: blanks[i] == ' ' || blanks[i] == '\t')
    requires t != "" ==> t[0] != ' ' && t[0] != '\t'
    ensures DropBlanks(blanks + t) == t
  {
    if blanks == "" {
      assert blanks + t == t;
    } else {
      BlanksAreDropped(blanks[1..], t);
      assert (blanks + t)[1..] == blanks[1..] + t;
    }
  }

  lemma {:induction false} CommaIsAt(s: string, n: nat)
    requires n <= |s| && (forall i | 0 <= i < n :: s[i] != ',') && (n < |s| ==> s[n] == ',')
    ensures CommaAt(s) == n
  {
    if n > 0 {
      CommaIsAt(s[1..], n - 1);
    }
  }

  // A field without a quote in front: blanks before it are left out, it ends at the first comma, and
  // an empty field follows if that comma ends the line.
  lemma FieldsOfAnyBare(blanks: string, t: string, n: nat)
    requires (forall i | 0 <= i < |blanks| :: blanks[i] == ' ' || blanks[i] == '\t') && blanks + t != ""
    requires t != "" ==> t[0] != ' ' && t[0] != '\t' && t[0] != '"'
    requires n <= |t| && (forall i | 0 <= i < n :: t[i] != ',') && (n < |t| ==> t[n] == ',')
    ensures Fields("") == []
    ensures Fields(blanks + t)
         == [t[..n]] + (if n + 1 == |t| then [""] else []) + (if n < |t| then Fields(t[n + 1..]) else [])
  {
    NoFields();
    BlanksAreDropped(blanks, t);
    CommaIsAt(t, n);
    hide DropBlanks, CommaAt, Quoted;
  }

  // A quoted one: cut as the field and what follows its closing quote, if there is one. What follows
  // is left out up to the next comma, which is at n. The place where the field would end without its
  // doubled quotes is looked at for a comma that ends the line.
  lemma FieldsOfAnyQuoted(blanks: string, u: string, cut: Cut, n: nat)
    requires (forall i | 0 <= i < |blanks| :: blanks[i] == ' ' || blanks[i] == '\t')
    requires cut == Quoted(u) && n <= |cut.rest|
    requires (forall i | 0 <= i < n :: cut.rest[i] != ',') && (n < |cut.rest| ==> cut.rest[n] == ',')
    ensures Fields(blanks + ['"'] + u)
         == [cut.field] + (if |cut.field| + 1 == |u| && u[|cut.field|] == ',' then [""] else [])
            + (if n < |cut.rest| then Fields(cut.rest[n + 1..]) else [])
  {
    hide *;
    Associative(blanks, ['"'], u);
    BlanksAreDropped(blanks, ['"'] + u);
    QuotedAfterBlanks(blanks + ['"'] + u, u);
    AfterCommaIs(cut.rest, n);
    EmptyAtEndIs(u, |cut.field|);
    NoFields();
  }

  lemma QuotedAfterBlanks(s: string, u: string)
    requires DropBlanks(s) == ['"'] + u
    ensures Fields(s) == [Quoted(u).field] + EmptyAtEnd(u, |Quoted(u).field|) + Fields(AfterComma(Quoted(u).rest))
  {
    hide DropBlanks, Quoted, AfterComma, EmptyAtEnd;
    assert (['"'] + u)[1..] == u;
  }

  lemma AfterCommaIs(s: string, n: nat)
    requires n <= |s| && (forall i | 0 <= i < n :: s[i] != ',') && (n < |s| ==> s[n] == ',')
    ensures AfterComma(s) == if n < |s| then s[n + 1..] else ""
  {
    CommaIsAt(s, n);
    hide CommaAt;
  }

  lemma EmptyAtEndIs(s: string, end: nat)
    ensures EmptyAtEnd(s, end) == if end + 1 == |s| && s[end] == ',' then [""] else []
  {}

  // The text in quotes: it goes on over doubled quotes, which stand for one, to a single one.
  lemma QuotedIs(c: char, s: string)
    ensures Quoted("") == Cut("", "")
    ensures c != '"' ==> Quoted([c] + s) == Cut([c] + Quoted(s).field, Quoted(s).rest)
    ensures Quoted(['"', '"'] + s) == Cut(['"'] + Quoted(s).field, Quoted(s).rest)
    ensures s == "" || s[0] != '"' ==> Quoted(['"'] + s) == Cut("", s)
  {
    QuotedOfNext(c, s);
    if s == "" || s[0] != '"' {
      QuotedOfEnd(s);
    }
  }

  // How a line is written in the round trips: bare fields as they are, and others in quotes.
  lemma CellsAre(text: string, c: char)
    ensures CellText(Bare(text)) == text && CellText(InQuotes(text)) == "\"" + Doubled(text) + "\""
    ensures Doubled("") == "" && Doubled([c] + text) == (if c == '"' then "\"\"" else [c]) + Doubled(text)
  {
    assert ([c] + text)[1..] == text;
  }

  lemma LinesAre(cell: Cell, rest: seq<Cell>)
    ensures Join([]) == "" && Join([cell]) == CellText(cell)
    ensures rest != [] ==> Join([cell] + rest) == CellText(cell) + ([','] + Join(rest))
  {
    hide CellText;
    assert ([cell] + rest)[1..] == rest;
  }

  lemma PlainIs(text: string)
    ensures Plain(text) <==> ',' !in text && (text != "" ==> text[0] != ' ' && text[0] != '\t' && text[0] != '"')
  {}

  lemma OnlyBareIsEmpty(cell: Cell)
    ensures CellText(cell) == "" <==> cell == Bare("")
  {}

  function AllInQuotes(fields: seq<string>): (cells: seq<Cell>)
    ensures |cells| == |fields|
  {
    seq(|fields|, i requires 0 <= i < |fields| => InQuotes(fields[i]))
  }

  function AllBare(fields: seq<string>): (cells: seq<Cell>)
    ensures |cells| == |fields|
  {
    seq(|fields|, i requires 0 <= i < |fields| => Bare(fields[i]))
  }

  // Any fields whatever come back when all are quoted.
  lemma QuotedRoundTrip(fields: seq<string>)
    ensures Fields(Join(AllInQuotes(fields))) == fields
  {
    hide Fields;
    SplitUndoesJoin(AllInQuotes(fields));
    assert Texts(AllInQuotes(fields)) == fields;
  }

  // ---- Fields as they stand ----

  predicate AllPlain(fields: seq<string>) {
    forall i | 0 <= i < |fields| :: Plain(fields[i])
  }

  // The length of a line of bare fields.
  function Size(fields: seq<string>): nat {
    if fields == [] then 0 else if |fields| == 1 then |fields[0]| else |fields[0]| + 1 + Size(fields[1..])
  }

  lemma {:induction false} SizeIsLength(fields: seq<string>)
    ensures |Join(AllBare(fields))| == Size(fields)
  {
    if |fields| > 1 {
      SizeIsLength(fields[1..]);
      assert AllBare(fields)[1..] == AllBare(fields[1..]);
    }
  }

  // A field with the empty one that may follow it, then the rest of the fields.
  lemma SizeOfNext(field: string, empty: bool, rest: seq<string>)
    requires empty ==> rest == []
    ensures var fields := [field] + (if empty then [""] else []) + rest;
      && Size(fields) == |field| + (if empty || rest != [] then 1 else 0) + Size(rest)
      && (AllPlain(fields) <==> Plain(field) && AllPlain(rest))
  {
    hide Plain;
    var fields := [field] + (if empty then [""] else []) + rest;
    if empty {
      assert fields == [field, ""] && fields[1..] == [""];
      EmptyIsPlain();
    } else {
      assert fields == [field] + rest && fields[1..] == rest;
    }
  }

  lemma EmptyIsPlain()
    ensures Plain("")
  {}

  // Splitting never makes more text than it is given, and makes as much only of plain fields.
  lemma {:induction false} FieldsAreNoLonger(s: string)
    ensures Size(Fields(s)) <= |s|
    ensures Size(Fields(s)) == |s| ==> AllPlain(Fields(s))
    decreases |s|
  {
    hide DropBlanks, Quoted, CommaAt, Size, AllPlain, Fields, EmptyAtEnd;
    if s == "" {
      NoFields();
      NothingIsPlain();
    } else if DropBlanks(s) != "" && DropBlanks(s)[0] == '"' {
      QuotedIsShorter(s);
      FieldsAreNoLonger(AfterComma(Quoted(DropBlanks(s)[1..]).rest));
    } else {
      UnquotedIsNoLonger(s);
      FieldsAreNoLonger(AfterComma(DropBlanks(s)));
    }
  }

  lemma NothingIsPlain()
    ensures Size([]) == 0 && AllPlain([])
  {}

  lemma NothingAfter(s: string)
    ensures AfterComma(s) == "" ==> Fields(AfterComma(s)) == []
  {}

  lemma QuotedIsShorter(s: string)
    requires s != "" && DropBlanks(s) != "" && DropBlanks(s)[0] == '"'
    ensures var rest := AfterComma(Quoted(DropBlanks(s)[1..]).rest);
      |rest| < |s| && (Size(Fields(rest)) <= |rest| ==> Size(Fields(s)) < |s|)
  {
    hide Quoted, Size, AllPlain, CommaAt, Plain;
    var t := DropBlanks(s);
    var u, cut := t[1..], Quoted(t[1..]);
    var rest := AfterComma(cut.rest);
    NothingAfter(cut.rest);
    NothingIsPlain();
    SizeOfNext(cut.field, EmptyAtEnd(u, |cut.field|) != [], Fields(rest));
    assert EmptyAtEnd(u, |cut.field|) == if EmptyAtEnd(u, |cut.field|) != [] then [""] else [];
  }

  lemma UnquotedIsNoLonger(s: string)
    requires s != "" && !(DropBlanks(s) != "" && DropBlanks(s)[0] == '"')
    ensures var rest := AfterComma(DropBlanks(s));
      && |rest| < |s|
      && (Size(Fields(rest)) <= |rest| ==> Size(Fields(s)) <= |s|)
      && (Size(Fields(rest)) <= |rest| && Size(Fields(s)) == |s| ==> Size(Fields(rest)) == |rest|)
      && (Size(Fields(s)) == |s| && AllPlain(Fields(rest)) ==> AllPlain(Fields(s)))
  {
    hide Size, AllPlain, DropBlanks;
    var t := DropBlanks(s);
    var n, rest := CommaAt(t), AfterComma(t);
    var empty := EmptyAtEnd(t, n) != [];
    NothingAfter(t);
    NothingIsPlain();
    SizeOfNext(t[..n], empty, Fields(rest));
    assert EmptyAtEnd(t, n) == if empty then [""] else [];
    NoCommaBefore(t);
    assert t == "" || Plain(t[..n]);
  }

  // Fields joined as they stand come back exactly when they are plain and are not one empty field.
  lemma BareRoundTrip(fields: seq<string>)
    ensures Fields(Join(AllBare(fields))) == fields <==> AllPlain(fields) && fields != [""]
  {
    hide Fields, Join, Size;
    var line := Join(AllBare(fields));
    SizeIsLength(fields);
    FieldsAreNoLonger(line);
    assert Texts(AllBare(fields)) == fields;
    if AllPlain(fields) {
      SplitUndoesJoin(AllBare(fields));
      assert LosesLast(AllBare(fields)) <==> fields == [""];
    }
  }

  // ---- The program: pointers into a buffer that ends with NUL ----

  // The buffer holds the line from str on, and NUL after it.
  predicate Holds(a: array<char>, line: string, str: nat)
    reads a
  {
    |line| < a.Length && a[|line|] == '\0' && forall i | str <= i < |line| :: a[i] == line[i]
  }

  lemma CommaStep(line: string, at: nat)
    requires at <= |line|
    ensures CommaAt(line[at..]) ==
      if at == |line| || line[at] == ',' then 0 else 1 + CommaAt(line[at + 1..])
  {
    assert at < |line| ==> line[at..][1..] == line[at + 1..];
  }

  // std::find of a comma.
  method FindComma(a: array<char>, first: nat, last: nat, ghost line: string) returns (at: nat)
    requires first <= last == |line| && Holds(a, line, first)
    ensures first <= at <= last && at == first + CommaAt(line[first..])
  {
    hide CommaAt;
    at := first;
    CommaStep(line, at);
    while at < last && a[at] != ','
      invariant first <= at <= last && CommaAt(line[first..]) == at - first + CommaAt(line[at..])
    {
      CommaStep(line, at);
      at := at + 1;
    }
    CommaStep(line, at);
  }

  lemma BlankStep(line: string, at: nat)
    requires at <= |line|
    ensures DropBlanks(line[at..]) ==
      if at < |line| && IsBlank(line[at]) then DropBlanks(line[at + 1..]) else line[at..]
  {
    assert at < |line| ==> line[at..][1..] == line[at + 1..];
  }

  method SkipBlanks(a: array<char>, first: nat, ghost line: string) returns (str: nat)
    requires first <= |line| && Holds(a, line, first)
    ensures first <= str <= |line| && line[str..] == DropBlanks(line[first..])
  {
    hide DropBlanks;
    str := first;
    while a[str] == ' ' || a[str] == '\t'
      invariant first <= str <= |line| && DropBlanks(line[first..]) == DropBlanks(line[str..])
      decreases |line| - str
    {
      BlankStep(line, str);
      str := str + 1;
    }
    BlankStep(line, str);
  }

  // The first k characters of the quoted text u have given moved.
  predicate Moved(u: string, k: nat, moved: string) {
    k <= |u| && Quoted(u) == Cut(moved + Quoted(u[k..]).field, Quoted(u[k..]).rest)
  }

  lemma MovedNothing(u: string)
    ensures Moved(u, 0, "")
  {
    assert u[0..] == u && "" + Quoted(u).field == Quoted(u).field;
  }

  lemma MovedAll(u: string, moved: string)
    requires Moved(u, |u|, moved)
    ensures Quoted(u) == Cut(moved, "")
  {
    assert u[|u|..] == "" && moved + "" == moved;
  }

  lemma MovedNext(u: string, k: nat, moved: string)
    requires Moved(u, k, moved) && k < |u| && u[k] != '"'
    ensures Moved(u, k + 1, moved + [u[k]])
  {
    assert u[k..][1..] == u[k + 1..];
    assert moved + ([u[k]] + Quoted(u[k + 1..]).field) == moved + [u[k]] + Quoted(u[k + 1..]).field;
  }

  lemma MovedPair(u: string, k: nat, moved: string)
    requires Moved(u, k, moved) && k + 1 < |u| && u[k] == u[k + 1] == '"'
    ensures Moved(u, k + 2, moved + [u[k + 1]])
  {
    assert u[k..][2..] == u[k + 2..];
    assert moved + (['"'] + Quoted(u[k + 2..]).field) == moved + ['"'] + Quoted(u[k + 2..]).field;
  }

  lemma MovedToQuote(u: string, k: nat, moved: string)
    requires Moved(u, k, moved) && k < |u| && u[k] == '"' && (k + 1 == |u| || u[k + 1] != '"')
    ensures Quoted(u) == Cut(moved, u[k + 1..])
  {
    assert u[k..][1..] == u[k + 1..] && moved + "" == moved;
  }

  // Moves the text of a quoted field down to its start. The write pointer stays at or behind the
  // read pointer, so everything not read yet is still there.
  method MoveQuoted(a: array<char>, start: nat, eos: nat, ghost line: string) returns (str: nat, end: nat)
    requires start <= eos == |line| && Holds(a, line, start)
    modifies a
    ensures start <= end <= str <= eos && Holds(a, line, end)
    ensures Quoted(line[start..]) == Cut(a[start..end], line[str..])
    ensures forall i | 0 <= i < start :: a[i] == old(a[i])
  {
    hide Moved, Quoted;
    ghost var u := line[start..];
    ghost var moved := "";
    str, end := start, start;
    MovedNothing(u);
    while str < eos
      invariant start <= end <= str <= eos && Holds(a, line, end)
      invariant forall i | 0 <= i < start :: a[i] == old(a[i])
      invariant a[start..end] == moved && Moved(u, str - start, moved)
      decreases eos - str
    {
      ghost var k := str - start;
      if a[str] == '"' {
        str := str + 1;
        if a[str] != '"' {
          MovedToQuote(u, k, moved);
          assert u[k + 1..] == line[str..];
          return;
        }
        MovedPair(u, k, moved);
      } else {
        MovedNext(u, k, moved);
      }
      moved := moved + [a[str]];
      a[end] := a[str];
      end := end + 1;
      str := str + 1;
    }
    MovedAll(u, moved);
  }

  // The line after its comma, that being its character n, or nothing.
  function From(line: string, n: nat): string {
    if n < |line| then line[n + 1..] else ""
  }

  lemma FieldsAtQuote(line: string, first: nat, start: nat, field: string, str: nat, next: nat)
    requires first < start <= str <= |line| && line[start - 1..] == DropBlanks(line[first..]) && line[start - 1] == '"'
    requires Quoted(line[start..]) == Cut(field, line[str..]) && next == str + CommaAt(line[str..])
    ensures Fields(line[first..]) == [field] + EmptyAtEnd(line, start + |field|) + Fields(From(line, next))
  {
    hide DropBlanks, Quoted, CommaAt;
    assert line[start - 1..][1..] == line[start..];
    assert EmptyAtEnd(line[start..], |field|) == EmptyAtEnd(line, start + |field|);
    assert AfterComma(line[str..]) == From(line, next);
  }

  lemma FieldsAtText(line: string, first: nat, start: nat, next: nat)
    requires first <= start <= |line| && first < |line| && line[start..] == DropBlanks(line[first..])
    requires start == |line| || line[start] != '"'
    requires next == start + CommaAt(line[start..])
    ensures Fields(line[first..]) == [line[start..next]] + EmptyAtEnd(line, next) + Fields(From(line, next))
  {
    hide DropBlanks, CommaAt;
    assert line[start..][..next - start] == line[start..next];
    assert EmptyAtEnd(line[start..], next - start) == EmptyAtEnd(line, next);
    assert AfterComma(line[start..]) == From(line, next);
  }

  // One round of the loop: the field at first becomes tmp[start..end], and next is the comma after
  // it, or the end.
  method NextField(tmp: array<char>, first: nat, eos: nat, ghost line: string) returns (start: nat, end: nat, next: nat)
    requires first < eos == |line| && Holds(tmp, line, first)
    modifies tmp
    ensures first <= start <= end <= next <= eos && Holds(tmp, line, end)
    ensures Fields(line[first..]) == [tmp[start..end]] + EmptyAtEnd(line, end) + Fields(From(line, next))
  {
    hide Quoted, CommaAt, DropBlanks, Fields, From, EmptyAtEnd;
    start := SkipBlanks(tmp, first, line);
    if tmp[start] == '"' {
      start := start + 1;
      var str;
      str, end := MoveQuoted(tmp, start, eos, line);
      next := FindComma(tmp, str, eos, line);
      FieldsAtQuote(line, first, start, tmp[start..end], str, next);
    } else {
      next := FindComma(tmp, start, eos, line);
      end := next;
      assert tmp[start..end] == line[start..end];
      FieldsAtText(line, first, start, next);
    }
  }

  // What is still to be read.
  function Left(line: string, str: nat): string {
    if str < |line| then line[str..] else ""
  }

  method SplitCSV(input: string) returns (output: seq<string>)
    ensures output == Fields(input)
  {
    NoFields();
    hide Fields;
    var eos := |input|;
    var tmp := new char[eos + 1](i => if 0 <= i < |input| then input[i] else '\0');
    var str := 0;
    output := [];
    assert Left(input, 0) == input;
    while str < eos
      invariant 0 <= str <= eos + 1 && Holds(tmp, input, str)
      invariant output + Fields(Left(input, str)) == Fields(input)
      decreases eos - str
    {
      var start, end;
      start, end, str := NextField(tmp, str, eos, input);
      var endIsEmpty := false;
      if tmp[end] == ',' && end == eos - 1 {
        endIsEmpty := true;
      }
      output := output + [tmp[start..end]];
      if endIsEmpty {
        output := output + [""];
      }
      assert EmptyAtEnd(input, end) == if endIsEmpty then [""] else [];
      assert Left(input, str + 1) == From(input, str);
      str := str + 1;
    }
    assert output + [] == output;
  }
}
