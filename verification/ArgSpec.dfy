// The console's command-line grammar: a state machine that reads one character at
// a time (split_argv.c), and the printing it undoes.

module ArgSpec {

  const QUOTE: char := '\"'
  const ESCAPE: char := '\\'
  const SPACE: char := ' '
  const NUL: char := '\0'

  datatype Mode = Between | Arg | Quoted | ArgEscaped | QuotedEscaped

  /// The machine: its mode, the argument being read, and the finished arguments.
  datatype Reader = Reader(mode: Mode, cur: string, args: seq<string>)

  const START := Reader(Between, "", [])

  function Step(m: Reader, c: char): Reader {
    match m.mode
    case Between =>
      if c == SPACE then m
      else if c == QUOTE then m.(mode := Quoted, cur := "")
      else if c == ESCAPE then m.(mode := ArgEscaped, cur := "")
      else m.(mode := Arg, cur := [c])
    case Quoted =>
      if c == QUOTE then Reader(Between, "", m.args + [m.cur])
      else if c == ESCAPE then m.(mode := QuotedEscaped)
      else m.(cur := m.cur + [c])
    case Arg =>
      if c == SPACE then Reader(Between, "", m.args + [m.cur])
      else if c == ESCAPE then m.(mode := ArgEscaped)
      else m.(cur := m.cur + [c])
    case ArgEscaped => m.(mode := Arg, cur := m.cur + Unescape(c))
    case QuotedEscaped => m.(mode := Quoted, cur := m.cur + Unescape(c))
  }

  /// An escaped character; unrecognised ones are dropped.
  function Unescape(c: char): string {
    if c == ESCAPE || c == QUOTE || c == SPACE then [c] else ""
  }

  /// Reading stops at the end of the text or when `max` arguments are finished;
  /// an argument still being read counts if there is room for it.
  function Scan(m: Reader, text: string, max: nat): seq<string>
    decreases |text|
  {
    if text == "" || text[0] == NUL || |m.args| >= max then
      if m.mode != Between && |m.args| < max then m.args + [m.cur] else m.args
    else
      Scan(Step(m, text[0]), text[1..], max)
  }

  function Split(text: string, max: nat): seq<string> {
    Scan(START, text, max)
  }

  lemma ScanOnce(m: Reader, text: string, i: nat, max: nat)
    requires i < |text| && text[i] != NUL && |m.args| < max
    ensures Scan(m, text[i..], max) == Scan(Step(m, text[i]), text[i + 1..], max)
  {
    assert text[i..][1..] == text[i + 1..];
  }

  lemma ScanStops(m: Reader, text: string, i: nat, max: nat)
    requires i < |text| && (text[i] == NUL || |m.args| >= max)
    ensures Scan(m, text[i..], max) == if m.mode != Between && |m.args| < max then m.args + [m.cur] else m.args
  {
  }

  lemma ScanFull(m: Reader, text: string, max: nat)
    requires m.mode == Between && (text == "" || |m.args| == max)
    ensures Scan(m, text, max) == m.args
  {
  }

  lemma {:induction false} ScanBound(m: Reader, text: string, max: nat)
    requires |m.args| <= max
    ensures |Scan(m, text, max)| <= max
    decreases |text|
  {
    if !(text == "" || text[0] == NUL || |m.args| >= max) {
      ScanBound(Step(m, text[0]), text[1..], max);
    }
  }

  // ---- What a line says ----

  /// A character as it is, or one behind an escape character.
  datatype Piece = Plain(c: char) | Esc(c: char)

  function Text(ps: seq<Piece>): string {
    if ps == [] then "" else (if ps[0].Esc? then [ESCAPE, ps[0].c] else [ps[0].c]) + Text(ps[1..])
  }

  /// An escaped quote, space or escape character stands for itself; any other escaped
  /// character stands for nothing.
  function Value(ps: seq<Piece>): string {
    if ps == [] then ""
    else (if ps[0].Plain? || ps[0].c in {QUOTE, SPACE, ESCAPE} then [ps[0].c] else "") + Value(ps[1..])
  }

  /// The pieces can stand in an argument, quoted or bare.
  ghost predicate Written(ps: seq<Piece>, quoted: bool) {
    forall p <- ps :: p.c != NUL &&
      (p.Plain? ==> p.c != ESCAPE && p.c != if quoted then QUOTE else SPACE)
  }

  /// An argument in quotes, or a bare one, behind `gap` spaces.
  datatype Item = Item(pieces: seq<Piece>, quoted: bool, gap: nat)

  function Printed(i: Item): string {
    if i.quoted then [QUOTE] + Text(i.pieces) + [QUOTE] else Text(i.pieces)
  }

  function Spaces(n: nat): string {
    if n == 0 then "" else [SPACE] + Spaces(n - 1)
  }

  /// The items with `gap` spaces before each, and `end` behind them.
  function Line(items: seq<Item>, end: string): string {
    if items == [] then end
    else Spaces(items[0].gap) + (Printed(items[0]) + Line(items[1..], end))
  }

  ghost predicate ItemOk(i: Item) {
    && Written(i.pieces, i.quoted)
    && (!i.quoted ==> i.pieces != [] && i.pieces[0] != Plain(QUOTE))
  }

  /// Bare arguments are not empty and do not start with a quote, and something
  /// separates a bare argument from the next one.
  ghost predicate Printable(items: seq<Item>) {
    && (forall i <- items :: ItemOk(i))
    && (forall k :: 0 <= k < |items| - 1 && !items[k].quoted ==> items[k + 1].gap > 0)
  }

  /// A bare argument at the end is followed by nothing or a space.
  ghost predicate Separated(items: seq<Item>, end: string) {
    items != [] && !items[|items| - 1].quoted ==> end == "" || end[0] == SPACE
  }

  function Args(items: seq<Item>): seq<string> {
    seq(|items|, k requires 0 <= k < |items| => Value(items[k].pieces))
  }

  lemma {:induction false} ScanSpaces(m: Reader, n: nat, rest: string, max: nat)
    requires m.mode == Between && |m.args| < max
    ensures Scan(m, Spaces(n) + rest, max) == Scan(m, rest, max)
    decreases n
  {
    if n == 0 {
      assert Spaces(n) + rest == rest;
    } else {
      assert (Spaces(n) + rest)[1..] == Spaces(n - 1) + rest;
      ScanSpaces(m, n - 1, rest, max);
    }
  }

  lemma ScanTwo(m: Reader, cs: string, rest: string, max: nat)
    requires |cs| == 2 && NUL !in cs && |m.args| < max && |Step(m, cs[0]).args| < max
    ensures Scan(m, cs + rest, max) == Scan(Step(Step(m, cs[0]), cs[1]), rest, max)
  {
    var text := cs + rest;
    assert text[0..] == text && text[2..] == rest;
    ScanOnce(m, text, 0, max);
    ScanOnce(Step(m, cs[0]), text, 1, max);
  }

  /// Reading pieces appends what they stand for to the argument being read.
  lemma {:induction false} ScanPieces(m: Reader, ps: seq<Piece>, rest: string, max: nat)
    requires (m.mode == Quoted || m.mode == Arg) && |m.args| < max && Written(ps, m.mode == Quoted)
    ensures Scan(m, Text(ps) + rest, max) == Scan(m.(cur := m.cur + Value(ps)), rest, max)
    decreases |ps|
  {
    var text := Text(ps) + rest;
    if ps == [] {
      assert text == rest && m.cur + Value(ps) == m.cur;
    } else {
      var p, more := ps[0], Text(ps[1..]) + rest;
      assert p in ps;
      var m1 := m.(cur := m.cur + Value([p]));
      OneValue(p, ps[1..]);
      assert m1.cur + Value(ps[1..]) == m.cur + Value(ps);
      ScanPieces(m1, ps[1..], rest, max);
      if p.Esc? {
        assert text == [ESCAPE, p.c] + more;
        ScanTwo(m, [ESCAPE, p.c], more, max);
      } else {
        assert text == [p.c] + more && text[1..] == more;
        assert Step(m, p.c) == m1;
      }
    }
  }

  lemma OneValue(p: Piece, ps: seq<Piece>)
    ensures Value([p]) == if p.Plain? || p.c in {QUOTE, SPACE, ESCAPE} then [p.c] else ""
    ensures [p] + ps != [] && Value([p] + ps) == Value([p]) + Value(ps)
  {
    assert [p][1..] == [] && ([p] + ps)[1..] == ps;
  }

  /// From between two arguments, a printed argument that is quoted is read whole.
  lemma ScanQuoted(m: Reader, ps: seq<Piece>, rest: string, max: nat)
    requires m.mode == Between && |m.args| < max && Written(ps, true)
    ensures Scan(m, [QUOTE] + Text(ps) + [QUOTE] + rest, max) ==
      Scan(Reader(Between, "", m.args + [Value(ps)]), rest, max)
  {
    var inside := Text(ps) + ([QUOTE] + rest);
    ScanOpen(m, ps, [QUOTE] + rest, max);
    assert [QUOTE] + Text(ps) + [QUOTE] + rest == [QUOTE] + inside;
    assert ([QUOTE] + rest)[1..] == rest;
  }

  /// A quote, and what follows up to the closing one.
  lemma ScanOpen(m: Reader, ps: seq<Piece>, rest: string, max: nat)
    requires m.mode == Between && |m.args| < max && Written(ps, true)
    ensures Scan(m, [QUOTE] + (Text(ps) + rest), max) == Scan(Reader(Quoted, Value(ps), m.args), rest, max)
  {
    var q := Reader(Quoted, "", m.args);
    assert ([QUOTE] + (Text(ps) + rest))[1..] == Text(ps) + rest;
    ScanPieces(q, ps, rest, max);
    assert q.cur + Value(ps) == Value(ps);
  }

  /// From between two arguments, a bare one is read up to its end.
  lemma ScanBare(m: Reader, ps: seq<Piece>, rest: string, max: nat)
    requires m.mode == Between && |m.args| < max && Written(ps, false) && ps != [] && ps[0] != Plain(QUOTE)
    ensures Scan(m, Text(ps) + rest, max) == Scan(Reader(Arg, Value(ps), m.args), rest, max)
  {
    var m1 := Reader(Arg, Value([ps[0]]), m.args);
    assert ps == [ps[0]] + ps[1..] && ps[0] in ps;
    OneValue(ps[0], ps[1..]);
    FirstPiece(m, ps, rest, max);
    hide Text, Value, Scan;
    ScanPieces(m1, ps[1..], rest, max);
  }

  /// The first piece of a bare argument.
  lemma FirstPiece(m: Reader, ps: seq<Piece>, rest: string, max: nat)
    requires m.mode == Between && |m.args| < max && ps != []
    requires ps[0].c != NUL && (ps[0].Plain? ==> ps[0].c != ESCAPE && ps[0].c != SPACE && ps[0].c != QUOTE)
    ensures Scan(m, Text(ps) + rest, max) == Scan(Reader(Arg, Value([ps[0]]), m.args), Text(ps[1..]) + rest, max)
  {
    var p, more := ps[0], Text(ps[1..]) + rest;
    OneValue(p, []);
    OneText(p, ps[1..], rest);
    assert ps == [p] + ps[1..];
    hide Text, Value;
    if p.Esc? {
      ScanTwo(m, [ESCAPE, p.c], more, max);
      assert Step(Step(m, ESCAPE), p.c) == Reader(Arg, Value([p]), m.args);
    } else {
      assert ([p.c] + more)[1..] == more;
    }
  }

  lemma OneWritten(p: Piece, ps: seq<Piece>, quoted: bool)
    requires Written(ps, quoted) && p.c != NUL
    requires p.Plain? ==> p.c != ESCAPE && p.c != if quoted then QUOTE else SPACE
    ensures Written([p] + ps, quoted)
  {
  }

  lemma OneText(p: Piece, ps: seq<Piece>, rest: string)
    ensures Text([p] + ps) + rest == (if p.Esc? then [ESCAPE, p.c] else [p.c]) + (Text(ps) + rest)
  {
    assert ([p] + ps)[1..] == ps;
  }

  /// A bare argument ends at the end of the text or at a space, and the space
  /// makes no difference to what follows.
  lemma EndBare(args: seq<string>, arg: string, rest: string, max: nat)
    requires |args| < max && (rest == "" || rest[0] == SPACE)
    ensures Scan(Reader(Arg, arg, args), rest, max) == Scan(Reader(Between, "", args + [arg]), rest, max)
  {
    if rest != "" {
      var done := Reader(Between, "", args + [arg]);
      assert Scan(Reader(Arg, arg, args), rest, max) == Scan(done, rest[1..], max);
    }
  }

  /// Items are read up to the text behind them, as far as there is room.
  lemma {:induction false} ScanLine(args: seq<string>, items: seq<Item>, end: string, max: nat)
    requires |args| <= max && Printable(items) && Separated(items, end)
    ensures var all := args + Args(items);
      Scan(Reader(Between, "", args), Line(items, end), max) ==
        if |all| < max then Scan(Reader(Between, "", all), end, max) else all[..max]
    decreases |items|
  {
    hide Scan, Text, Value, ItemOk;
    var m := Reader(Between, "", args);
    if |args| == max {
      ScanFull(m, Line(items, end), max);
      assert (args + Args(items))[..max] == args;
    } else if items == [] {
      assert args + Args(items) == args;
    } else {
      var i, more := items[0], items[1..];
      var rest := Line(more, end);
      assert i in items;
      ScanSpaces(m, i.gap, Printed(i) + rest, max);
      LineStart(items, end);
      ScanItem(args, i, rest, max);
      PrintableTail(items, end);
      ScanLine(args + [Value(i.pieces)], more, end, max);
      assert args + [Value(i.pieces)] + Args(more) == args + Args(items);
    }
  }

  lemma ScanItem(args: seq<string>, i: Item, rest: string, max: nat)
    requires |args| < max && ItemOk(i) && (!i.quoted ==> rest == "" || rest[0] == SPACE)
    ensures Scan(Reader(Between, "", args), Printed(i) + rest, max) ==
      Scan(Reader(Between, "", args + [Value(i.pieces)]), rest, max)
  {
    var m := Reader(Between, "", args);
    if i.quoted {
      ScanQuoted(m, i.pieces, rest, max);
    } else {
      ScanBare(m, i.pieces, rest, max);
      EndBare(args, Value(i.pieces), rest, max);
    }
  }

  lemma LineStart(items: seq<Item>, end: string)
    requires items != [] && Printable(items) && Separated(items, end)
    ensures !items[0].quoted ==> var rest := Line(items[1..], end); rest == "" || rest[0] == SPACE
  {
  }

  lemma PrintableTail(items: seq<Item>, end: string)
    requires items != [] && Printable(items) && Separated(items, end)
    ensures Printable(items[1..]) && Separated(items[1..], end)
  {
    var more := items[1..];
    assert forall k :: 0 <= k < |more| ==> more[k] == items[k + 1];
  }

  /// The first `max` arguments.
  function UpTo(args: seq<string>, max: nat): seq<string> {
    args[..if |args| < max then |args| else max]
  }

  /// A line of finished arguments splits into what they stand for, as many as there is
  /// room for.
  lemma ReadsLine(items: seq<Item>, tail: nat, max: nat)
    requires Printable(items) && Separated(items, Spaces(tail))
    ensures Split(Line(items, Spaces(tail)), max) == UpTo(Args(items), max)
  {
    ScanLine([], items, Spaces(tail), max);
    assert [] + Args(items) == Args(items);
    if |Args(items)| < max {
      var m := Reader(Between, "", Args(items));
      ScanSpaces(m, tail, "", max);
      ScanFull(m, "", max);
      assert Spaces(tail) + "" == Spaces(tail);
    }
  }

  /// How a line can end in an unfinished argument: in an open quote, or behind an escape
  /// character, or both.
  datatype Rest = Rest(gap: nat, quoted: bool, pieces: seq<Piece>, dangling: bool)

  function Shown(r: Rest): string {
    Spaces(r.gap) + ((if r.quoted then [QUOTE] else "") + (Text(r.pieces) + if r.dangling then [ESCAPE] else ""))
  }

  ghost predicate RestOk(items: seq<Item>, r: Rest) {
    && Written(r.pieces, r.quoted) && (r.quoted || r.dangling)
    && (!r.quoted && r.pieces != [] ==> r.pieces[0] != Plain(QUOTE))
    && (items != [] && !items[|items| - 1].quoted ==> r.gap > 0)
  }

  /// An unfinished argument counts like a finished one.
  lemma ReadsUnfinished(items: seq<Item>, r: Rest, max: nat)
    requires Printable(items) && RestOk(items, r)
    ensures Split(Line(items, Shown(r)), max) == UpTo(Args(items) + [Value(r.pieces)], max)
  {
    assert Separated(items, Shown(r));
    ScanLine([], items, Shown(r), max);
    assert [] + Args(items) == Args(items);
    if |Args(items)| < max {
      hide Text, Value;
      ScanRest(Args(items), r, max);
    }
  }

  lemma ScanRest(args: seq<string>, r: Rest, max: nat)
    requires |args| < max && RestOk([], r)
    ensures Scan(Reader(Between, "", args), Shown(r), max) == args + [Value(r.pieces)]
  {
    var m := Reader(Between, "", args);
    var last := if r.dangling then [ESCAPE] else "";
    ScanSpaces(m, r.gap, (if r.quoted then [QUOTE] else "") + (Text(r.pieces) + last), max);
    assert last != "" ==> last[1..] == "";
    if r.quoted {
      ScanOpen(m, r.pieces, last, max);
    } else if r.pieces == [] {
      assert "" + (Text(r.pieces) + last) == [ESCAPE];
    } else {
      assert "" + (Text(r.pieces) + last) == Text(r.pieces) + last;
      ScanBare(m, r.pieces, last, max);
    }
  }

  // ---- Every line is of one of these forms ----

  /// The longest run of pieces at the start of a text.
  lemma {:induction false} ReadPieces(text: string, quoted: bool)
    returns (ps: seq<Piece>, dangling: bool, rest: string)
    requires NUL !in text
    ensures text == Text(ps) + (if dangling then [ESCAPE] else rest)
    ensures Written(ps, quoted) && |rest| <= |text| && NUL !in rest
    ensures !dangling && rest != "" ==> rest[0] == if quoted then QUOTE else SPACE
    ensures ps == [] && !dangling ==> rest == text
    ensures ps != [] && text[0] != QUOTE ==> ps[0] != Plain(QUOTE)
    decreases |text|
  {
    if text == "" || text[0] == (if quoted then QUOTE else SPACE) {
      ps, dangling, rest := [], false, text;
    } else if text == [ESCAPE] {
      ps, dangling, rest := [], true, "";
    } else {
      var p, next := ReadPiece(text, quoted);
      var more;
      more, dangling, rest := ReadPieces(next, quoted);
      ps := [p] + more;
      OneText(p, more, if dangling then [ESCAPE] else rest);
      OneWritten(p, more, quoted);
      hide Text, Written;
    }
  }

  lemma ReadPiece(text: string, quoted: bool) returns (p: Piece, next: string)
    requires text != "" && text != [ESCAPE] && NUL !in text && text[0] != if quoted then QUOTE else SPACE
    ensures p.c != NUL && (p.Plain? ==> p.c != ESCAPE && p.c != if quoted then QUOTE else SPACE)
    ensures text == (if p.Esc? then [ESCAPE, p.c] else [p.c]) + next
    ensures |next| < |text| && NUL !in next && (text[0] != QUOTE ==> p != Plain(QUOTE))
  {
    assert text[0] in text;
    if text[0] == ESCAPE {
      assert text[1] in text;
      p, next := Esc(text[1]), text[2..];
    } else {
      p, next := Plain(text[0]), text[1..];
    }
  }

  lemma {:induction false} ReadSpaces(text: string) returns (gap: nat, rest: string)
    ensures text == Spaces(gap) + rest && (rest != "" ==> rest[0] != SPACE)
    ensures text != "" && text[0] == SPACE ==> gap > 0
    decreases |text|
  {
    if text == "" || text[0] != SPACE {
      gap, rest := 0, text;
    } else {
      gap, rest := ReadSpaces(text[1..]);
      gap := gap + 1;
    }
  }

  /// How a line is put together: items, and spaces or an unfinished argument.
  datatype Parts = Done(items: seq<Item>, tail: nat) | Open(items: seq<Item>, last: Rest)

  ghost predicate Describes(d: Parts, text: string) {
    && Printable(d.items)
    && match d
       case Done(items, tail) => Separated(items, Spaces(tail)) && text == Line(items, Spaces(tail))
       case Open(items, last) => RestOk(items, last) && text == Line(items, Shown(last))
  }

  /// The spaces in front.
  function Front(d: Parts): nat {
    if d.items != [] then d.items[0].gap else if d.Open? then d.last.gap else d.tail
  }

  function More(i: Item, d: Parts): Parts {
    d.(items := [i] + d.items)
  }

  lemma MoreDescribes(i: Item, d: Parts, text: string)
    requires ItemOk(i) && Describes(d, text) && (!i.quoted ==> text == "" || Front(d) > 0)
    ensures Describes(More(i, d), Spaces(i.gap) + (Printed(i) + text))
  {
    hide ItemOk, Text, Printed;
    var items := [i] + d.items;
    assert items[1..] == d.items;
    if text == "" && !i.quoted {
      EmptyLine(d);
    }
    assert forall k :: 0 < k < |items| ==> items[k] == d.items[k - 1];
  }

  lemma EmptyLine(d: Parts)
    requires Describes(d, "")
    ensures d == Done([], 0)
  {
    LineFront(d.items, if d.Open? then Shown(d.last) else Spaces(d.tail));
  }

  /// A line with items is not empty, and starts with a space only if its first item
  /// has one in front.
  lemma LineFront(items: seq<Item>, end: string)
    requires Printable(items)
    ensures items != [] ==> Line(items, end) != "" && (items[0].gap == 0 ==> Line(items, end)[0] != SPACE)
  {
    if items != [] {
      assert items[0] in items;
    }
  }

  lemma SpacesInFront(d: Parts, text: string)
    requires Describes(d, text) && text != "" && text[0] == SPACE
    ensures Front(d) > 0
  {
    LineFront(d.items, if d.Open? then Shown(d.last) else Spaces(d.tail));
  }

  /// Every line is of this kind.
  lemma {:induction false} EveryLine(text: string) returns (d: Parts)
    requires NUL !in text
    ensures Describes(d, text)
    decreases |text|
  {
    var gap, body := ReadSpaces(text);
    assert forall k :: 0 <= k < |body| ==> body[k] == text[k + |text| - |body|];
    assert NUL !in body;
    hide Describes, Printable, ItemOk, RestOk, Written, Text;
    if body == "" {
      d := OnlySpaces(gap, text);
      return;
    }
    var quoted := body[0] == QUOTE;
    var ps, dangling, rest := ReadPieces(if quoted then body[1..] else body, quoted);
    if dangling || (quoted && rest == "") {
      d := OnlyRest(gap, body, quoted, ps, dangling, rest);
    } else {
      var i := Item(ps, quoted, gap);
      var next := if quoted then rest[1..] else rest;
      FirstItem(body, i, rest);
      var more := EveryLine(next);
      if !quoted && next != "" {
        SpacesInFront(more, next);
      }
      MoreDescribes(i, more, next);
      d := More(i, more);
    }
  }

  lemma OnlySpaces(gap: nat, text: string) returns (d: Parts)
    requires text == Spaces(gap) + ""
    ensures Describes(d, text)
  {
    d := Done([], gap);
    assert Spaces(gap) + "" == Spaces(gap);
  }

  lemma OnlyRest(gap: nat, body: string, quoted: bool, ps: seq<Piece>, dangling: bool, rest: string)
    returns (d: Parts)
    requires body != "" && (quoted <==> body[0] == QUOTE) && Written(ps, quoted)
    requires (if quoted then body[1..] else body) == Text(ps) + if dangling then [ESCAPE] else rest
    requires dangling || (quoted && rest == "")
    requires !quoted && ps != [] ==> ps[0] != Plain(QUOTE)
    ensures Describes(d, Spaces(gap) + body)
  {
    var r := Rest(gap, quoted, ps, dangling);
    d := Open([], r);
    assert body == (if quoted then [QUOTE] else "") + if quoted then body[1..] else body;
  }

  lemma FirstItem(body: string, i: Item, rest: string)
    requires body != "" && (i.quoted <==> body[0] == QUOTE) && Written(i.pieces, i.quoted)
    requires (if i.quoted then body[1..] else body) == Text(i.pieces) + rest
    requires if i.quoted then rest != "" && rest[0] == QUOTE else i.pieces != [] && i.pieces[0] != Plain(QUOTE)
    ensures ItemOk(i) && body == Printed(i) + if i.quoted then rest[1..] else rest
  {
    assert i.quoted ==> body == [QUOTE] + body[1..] && rest == [QUOTE] + rest[1..];
  }

  // ---- Printing arguments ----

  /// The pieces for an argument: what has a meaning of its own is escaped.
  function Pieces(arg: string, quoted: bool): seq<Piece> {
    if arg == "" then [] else
      [if arg[0] == QUOTE || arg[0] == ESCAPE || (arg[0] == SPACE && !quoted) then Esc(arg[0]) else Plain(arg[0])]
      + Pieces(arg[1..], quoted)
  }

  lemma {:induction false} PiecesStandForArg(arg: string, quoted: bool)
    requires NUL !in arg
    ensures Value(Pieces(arg, quoted)) == arg && Written(Pieces(arg, quoted), quoted)
    ensures arg != "" ==> Pieces(arg, quoted) != [] && Pieces(arg, quoted)[0] != Plain(QUOTE)
  {
    if arg != "" {
      PiecesStandForArg(arg[1..], quoted);
      var ps := Pieces(arg, quoted);
      assert ps[1..] == Pieces(arg[1..], quoted);
      assert [arg[0]] + arg[1..] == arg;
    }
  }

  /// How to print arguments: each with or without quotes, behind some spaces.
  datatype Style = Style(quoted: bool, gap: nat)

  function Items(args: seq<string>, styles: seq<Style>): seq<Item>
    requires |args| == |styles|
  {
    seq(|args|, k requires 0 <= k < |args| =>
      Item(Pieces(args[k], styles[k].quoted), styles[k].quoted, styles[k].gap))
  }

  /// Printed arguments split back into the arguments, as many as there is room for.
  /// Empty ones must be quoted, and something must follow a bare one.
  lemma RoundTrip(args: seq<string>, styles: seq<Style>, tail: nat, max: nat)
    requires |args| == |styles| && forall k :: 0 <= k < |args| ==>
      NUL !in args[k] && (args[k] == "" ==> styles[k].quoted)
    requires forall k :: 0 <= k < |args| - 1 && !styles[k].quoted ==> styles[k + 1].gap > 0
    ensures Split(Line(Items(args, styles), Spaces(tail)), max) == UpTo(args, max)
  {
    var items := Items(args, styles);
    forall k | 0 <= k < |args|
      ensures ItemOk(items[k]) && Value(items[k].pieces) == args[k]
    {
      PiecesStandForArg(args[k], styles[k].quoted);
    }
    assert Args(items) == args;
    ReadsLine(items, tail, max);
  }
}
