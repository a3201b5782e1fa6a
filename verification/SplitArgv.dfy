// esp_console_split_argv: splits a line in place.  The arguments are written over
// the line itself, each followed by a terminator.

module SplitArgv {
  import opened Machine
  import opened ArgSpec

  /// The memory at `p` holds the C string `s`.
  predicate HoldsString(mem: seq<char>, p: nat, s: string) {
    && p + |s| < |mem|
    && mem[p..p + |s|] == s && mem[p + |s|] == NUL && NUL !in s
  }

  /// The first `|args|` pointers are strings stored below `limit`.
  ghost predicate Stored(mem: seq<char>, argv: seq<Option<nat>>, args: seq<string>, limit: nat) {
    && |args| <= |argv| && limit <= |mem|
    && forall k :: 0 <= k < |args| ==>
         argv[k].Some? && argv[k].value + |args[k]| < limit && HoldsString(mem, argv[k].value, args[k])
  }

  /// The finished arguments are stored; the one being read is at `start..out`.
  ghost predicate Built(mem: seq<char>, argv: seq<Option<nat>>, m: ArgSpec.Reader, start: nat, out: nat) {
    && start <= out <= |mem| && Stored(mem, argv, m.args, out)
    && (m.mode != Between ==> mem[start..out] == m.cur && NUL !in m.cur)
  }

  /// What is stored below `out` survives a write at `out`.
  lemma StillStored(mem: seq<char>, argv: seq<Option<nat>>, args: seq<string>, out: nat, c: char)
    requires out < |mem| && Stored(mem, argv, args, out)
    ensures Stored(mem[out := c], argv, args, out) && Stored(mem[out := c], argv, args, out + 1)
  {
    forall k | 0 <= k < |args|
      ensures HoldsString(mem[out := c], argv[k].value, args[k])
    {
      var p := argv[k].value;
      assert mem[out := c][p..p + |args[k]|] == mem[p..p + |args[k]|];
    }
  }

  /// Whether reading `c` begins or ends an argument, and what is written for it.
  predicate Begins(mode: Mode, c: char) {
    mode == Between && c != SPACE
  }

  predicate Ends(mode: Mode, c: char) {
    (mode == Quoted && c == QUOTE) || (mode == Arg && c == SPACE)
  }

  function Writes(mode: Mode, c: char): Option<char> {
    match mode
    case Between => if c == SPACE || c == QUOTE || c == ESCAPE then None else Some(c)
    case Quoted => if c == QUOTE then Some(NUL) else if c == ESCAPE then None else Some(c)
    case Arg => if c == SPACE then Some(NUL) else if c == ESCAPE then None else Some(c)
    case ArgEscaped => if c == ESCAPE || c == QUOTE || c == SPACE then Some(c) else None
    case QuotedEscaped => if c == ESCAPE || c == QUOTE || c == SPACE then Some(c) else None
  }

  /// One round of the loop keeps the line and the pointers in step with the machine.
  lemma StepBuilt(mem: seq<char>, argv: seq<Option<nat>>, m: ArgSpec.Reader, start: nat, out: nat, c: char)
    requires Built(mem, argv, m, start, out) && c != NUL && out < |mem| && |m.args| < |argv|
    ensures var w := Writes(m.mode, c);
      Built(if w.Some? then mem[out := w.value] else mem,
            if Ends(m.mode, c) then argv[|m.args| := Some(start)] else argv,
            Step(m, c),
            if Begins(m.mode, c) then out else start,
            if w.Some? then out + 1 else out)
  {
    var w := Writes(m.mode, c);
    if w.Some? {
      StillStored(mem, argv, m.args, out, w.value);
      var mem' := mem[out := w.value];
      assert mem'[start..out] == mem[start..out];
      assert mem'[start..out + 1] == mem[start..out] + [w.value];
    }
    if Ends(m.mode, c) {
      assert HoldsString(mem[out := NUL], start, m.cur);
    }
  }

  /// All arguments are stored and the list of pointers to them ends with NULL.
  ghost predicate Finished(mem: seq<char>, argv: seq<Option<nat>>, args: seq<string>) {
    && |args| < |argv| && argv[|args|] == None
    && forall k :: 0 <= k < |args| ==> argv[k].Some? && HoldsString(mem, argv[k].value, args[k])
  }

  lemma NothingBuilt(mem: seq<char>, argv: seq<Option<nat>>)
    ensures Built(mem, argv, START, 0, 0)
  {
  }

  /// Terminating the last argument.
  lemma LastBuilt(mem: seq<char>, argv: seq<Option<nat>>, m: ArgSpec.Reader, start: nat, out: nat)
    requires Built(mem, argv, m, start, out) && out < |mem| && |m.args| < |argv|
    ensures Finished(mem[out := NUL], argv[|m.args| := None], m.args)
    ensures m.mode != Between && |m.args| + 1 < |argv| ==>
      Finished(mem[out := NUL], argv[|m.args| := Some(start)][|m.args| + 1 := None], m.args + [m.cur])
  {
    StillStored(mem, argv, m.args, out, NUL);
    assert mem[out := NUL][start..out] == mem[start..out];
    if m.mode != Between {
      assert HoldsString(mem[out := NUL], start, m.cur);
    }
  }

  /// The in-place splitter computes the arguments of the grammar: they are stored
  /// in the line as C strings, in order, and the pointer list ends with NULL.
  method Split(line: array<char>, argv: array<Option<nat>>) returns (argc: nat)
    requires NUL in line[..] && argv.Length >= 1
    modifies line, argv
    ensures var args := ArgSpec.Split(old(line[..]), argv.Length - 1);
      argc == |args| <= argv.Length - 1 && Finished(line[..], argv[..], args)
  {
    hide Built, Stored, HoldsString, Finished, Scan;
    ghost var text, max := line[..], argv.Length - 1;
    NothingBuilt(text, argv[..]);
    var state := Between;
    argc := 0;
    var start, out, i := 0, 0, 0;
    ghost var m := START;
    while argc < argv.Length - 1
      invariant out <= i < line.Length
      invariant line[i..] == text[i..] && NUL in line[i..]
      invariant m.mode == state && |m.args| == argc <= max
      invariant Built(line[..], argv[..], m, start, out)
      invariant ArgSpec.Split(text, max) == Scan(m, text[i..], max)
      decreases line.Length - i
    {
      var c := line[i];
      if c == NUL {
        break;
      }
      ScanOnce(m, text, i, max);
      ghost var mem, ptrs := line[..], argv[..];
      ghost var w, ends := Writes(state, c), Ends(state, c);
      ghost var mem' := if w.Some? then mem[out := w.value] else mem;
      ghost var ptrs' := if ends then ptrs[argc := Some(start)] else ptrs;
      ghost var start' := if Begins(state, c) then out else start;
      ghost var out' := if w.Some? then out + 1 else out;
      assert Built(mem', ptrs', Step(m, c), start', out') by {
        StepBuilt(mem, ptrs, m, start, out, c);
      }
      var charOut: Option<char> := None;
      match state {
        case Between =>
          if c == SPACE {
            // skip space
          } else if c == QUOTE {
            start := out;
            state := Quoted;
          } else if c == ESCAPE {
            start := out;
            state := ArgEscaped;
          } else {
            start := out;
            state := Arg;
            charOut := Some(c);
          }
        case Quoted =>
          if c == QUOTE {
            charOut := Some(NUL);
            argv[argc] := Some(start);
            argc := argc + 1;
            state := Between;
          } else if c == ESCAPE {
            state := QuotedEscaped;
          } else {
            charOut := Some(c);
          }
        case ArgEscaped =>
          if c == ESCAPE || c == QUOTE || c == SPACE {
            charOut := Some(c);
          }
          state := Arg;
        case QuotedEscaped =>
          if c == ESCAPE || c == QUOTE || c == SPACE {
            charOut := Some(c);
          }
          state := Quoted;
        case Arg =>
          if c == SPACE {
            charOut := Some(NUL);
            argv[argc] := Some(start);
            argc := argc + 1;
            state := Between;
          } else if c == ESCAPE {
            state := ArgEscaped;
          } else {
            charOut := Some(c);
          }
      }
      assert charOut == w && start == start' && argv[..] == ptrs';
      if charOut.Some? {
        line[out] := charOut.value;
        out := out + 1;
      }
      assert out == out' && line[..] == mem';
      m := Step(m, c);
      i := i + 1;
    }
    ScanStops(m, text, i, max);
    ghost var mem, ptrs := line[..], argv[..];
    LastBuilt(mem, ptrs, m, start, out);
    line[out] := NUL;
    if state != Between && argc < argv.Length - 1 {
      argv[argc] := Some(start);
      argc := argc + 1;
    }
    argv[argc] := None;
    assert line[..] == mem[out := NUL];
    assert argv[..] == if argc == |m.args| then ptrs[argc := None] else ptrs[argc - 1 := Some(start)][argc := None];
  }
}
