/**
 * The SDL branch of log.cpp: messages go to the C library's `stdout` and
 * `stderr` streams, modelled as the character sequences written to each.
 */
module Console {
  import opened CStrings
  import opened Format

  /** A C library output stream (`FILE *`): what has been written to it so far. */
  class Stream {
    var written: string

    constructor ()
      ensures written == []
    {
      written := [];
    }

    /** `fputc` / `fprintf` of already formatted text. */
    method Put(text: string)
      modifies this
      ensures written == old(written) + text
    {
      written := written + text;
    }
  }

  /** `output`: walk the format; `%s`, `%d` and `%f` each print the next
      argument, any other directive prints nothing. */
  method Output(stream: Stream, msg: string, args: seq<Arg>)
    requires IsCString(msg) && DirectivesComplete(msg) && ArgsFit(msg, args)
    modifies stream
    ensures stream.written == old(stream.written) + SdlFormat(msg, args)
  {
    var p := 0;
    var next := 0;
    ghost var goal := old(stream.written) + SdlFormat(msg, args);
    while CharAt(msg, p) != '\0'
      invariant 0 <= p <= |msg| && next <= |args|
      invariant DirectivesComplete(msg[p..]) && ArgsFit(msg[p..], args[next..])
      invariant stream.written + SdlFormat(msg[p..], args[next..]) == goal
      decreases |msg| - p
    {
      if msg[p] == '%' {
        var directive := CharAt(msg, p + 1);
        if IsConversion(directive) {
          SdlStepConversion(msg, p, args, next);
          var text := Convert(directive, args[next]);
          Regroup(goal, stream.written, text, SdlFormat(msg[p + 2..], args[next + 1..]));
          stream.Put(text);
          next := next + 1;
        } else {
          SdlStepOther(msg, p, args, next);
        }
        // past the '%' and the directive character
        p := p + 2;
      } else {
        SdlStepPlain(msg, p, args, next);
        Regroup(goal, stream.written, [msg[p]], SdlFormat(msg[p + 1..], args[next..]));
        stream.Put([msg[p]]);
        p := p + 1;
      }
    }
    assert p == |msg| && msg[p..] == [];
  }

  /** The process's standard output and standard error streams, and the
      logging entry points that write to them. */
  class StdStreams {
    const stdout: Stream
    const stderr: Stream

    ghost predicate Valid()
    {
      stdout != stderr
    }

    constructor ()
      ensures Valid() && fresh(stdout) && fresh(stderr)
      ensures stdout.written == [] && stderr.written == []
    {
      stdout := new Stream();
      stderr := new Stream();
    }

    /** `log`: the formatted message and a newline on stdout. */
    method Log(msg: string, args: seq<Arg>)
      requires Valid() && IsCString(msg) && DirectivesComplete(msg) && ArgsFit(msg, args)
      modifies stdout
      ensures stdout.written == old(stdout.written) + SdlFormat(msg, args) + "\n"
    {
      Output(stdout, msg, args);
      stdout.Put("\n");
    }

    /** `error(line_num, msg, ...)`: on stderr, "error: ", the message, the line
        note when the line number is not 0, a newline. */
    method ErrorAt(lineNum: int, msg: string, args: seq<Arg>)
      requires Valid() && IsCString(msg) && DirectivesComplete(msg) && ArgsFit(msg, args)
      modifies stderr
      ensures stderr.written == old(stderr.written) + "error: " + SdlFormat(msg, args) + LineNote(" @ or near line ", lineNum) + "\n"
    {
      PrefixIsPlain("error: ");
      Output(stderr, "error: ", []);
      Output(stderr, msg, args);
      if lineNum != 0 {
        stderr.Put(" @ or near line " + IntDecimal(lineNum) + " ");
      }
      stderr.Put("\n");
    }

    /** `error(msg, ...)`: on stderr, "error: ", the message, a newline. */
    method Error(msg: string, args: seq<Arg>)
      requires Valid() && IsCString(msg) && DirectivesComplete(msg) && ArgsFit(msg, args)
      modifies stderr
      ensures stderr.written == old(stderr.written) + "error: " + SdlFormat(msg, args) + "\n"
    {
      stderr.Put("error: ");
      Output(stderr, msg, args);
      stderr.Put("\n");
    }

    /** `warning`: on stderr, "warning: ", the message, the line note (which,
        unlike the one of `error`, has no leading space) when the line number
        is not 0, a newline. */
    method Warning(lineNum: int, msg: string, args: seq<Arg>)
      requires Valid() && IsCString(msg) && DirectivesComplete(msg) && ArgsFit(msg, args)
      modifies stderr
      ensures stderr.written == old(stderr.written) + "warning: " + SdlFormat(msg, args) + LineNote("@ or near line ", lineNum) + "\n"
    {
      stderr.Put("warning: ");
      Output(stderr, msg, args);
      if lineNum != 0 {
        stderr.Put("@ or near line " + IntDecimal(lineNum) + " ");
      }
      stderr.Put("\n");
    }
  }

  /** A fixed prefix without directives or NUL is printed by `output` as it is. */
  lemma PrefixIsPlain(prefix: string)
    requires '%' !in prefix && '\0' !in prefix
    ensures IsCString(prefix) && DirectivesComplete(prefix) && ArgsFit(prefix, [])
    ensures SdlFormat(prefix, []) == prefix
  {
    SdlFormatPlain(prefix, []);
  }

  /** The text `fprintf` prints for one argument under conversion `c`: the
      branches of `output` for `%s`, `%d` and `%f`. */
  method Convert(c: char, a: Arg) returns (text: string)
    requires IsConversion(c) && Matches(c, a)
    ensures text == Render(a)
  {
    if c == 's' {
      text := a.s;
    } else if c == 'd' {
      text := IntDecimal(a.i);
    } else {
      text := a.printed;
    }
  }

  /** The note `error` and `warning` add for a line number: nothing for line 0,
      otherwise `prefix`, the number in decimal and one space. */
  function LineNote(prefix: string, lineNum: int): (r: string)
    ensures lineNum == 0 <==> r == []
    ensures lineNum != 0 ==> |r| >= |prefix| + 2 && r[..|prefix|] == prefix && r[|r| - 1] == ' '
  {
    if lineNum == 0 then [] else prefix + IntDecimal(lineNum) + " "
  }

  /** The number in a line note reads back as the line number printed. */
  lemma LineNoteRoundTrip(prefix: string, lineNum: int)
    requires lineNum != 0
    ensures var note := LineNote(prefix, lineNum);
      var digits := note[|prefix|..|note| - 1];
      |digits| >= 1 && IsDigits(if digits[0] == '-' then digits[1..] else digits) &&
      ParseDecimal(digits) == lineNum
  {
    var note := LineNote(prefix, lineNum);
    assert note[|prefix|..|note| - 1] == IntDecimal(lineNum);
    IntDecimalRoundTrip(lineNum);
  }
}
