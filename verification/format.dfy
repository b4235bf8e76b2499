/**
 * What the two format-directive interpreters of log.cpp produce, as functions
 * from a format string and an argument list to the emitted characters.
 *
 * Both walk the format one character at a time. A '%' makes the walk step onto
 * the next character and treat it as a directive; every other character is
 * emitted unchanged. The WINDOWS branch knows only `%s`; the SDL branch knows
 * `%s`, `%d` and `%f`. Any other directive emits nothing and consumes no
 * argument, in both branches.
 */
module Format {
  import opened CStrings

  // ---------------------------------------------------------------------------
  // Well-formed format strings

  /** Every '%' the walk meets is followed by a directive character, so the walk
      never steps onto the terminator after a '%' and then past it. */
  predicate DirectivesComplete(fmt: string)
    decreases |fmt|
  {
    if fmt == [] then true
    else if fmt[0] == '%' then |fmt| >= 2 && DirectivesComplete(fmt[2..])
    else DirectivesComplete(fmt[1..])
  }

  /** A format with no '%' at all is always well formed. */
  lemma {:induction false} PlainIsComplete(fmt: string)
    requires '%' !in fmt
    ensures DirectivesComplete(fmt)
  {
    if fmt != [] {
      assert fmt[0] in fmt;
      PlainIsComplete(fmt[1..]);
    }
  }

  // ---------------------------------------------------------------------------
  // WINDOWS branch: `%s` only

  /** How many string arguments the walk over `fmt` takes from the argument list. */
  function StringArgs(fmt: string): nat
    decreases |fmt|
  {
    if fmt == [] then 0
    else if fmt[0] == '%' then
      if |fmt| < 2 then 0
      else (if fmt[1] == 's' then 1 else 0) + StringArgs(fmt[2..])
    else StringArgs(fmt[1..])
  }

  /** The characters `output_list` sends to the debugger for `fmt` and `args`.
      The walk is only meaningful for a format that is DirectivesComplete and
      an argument list holding StringArgs(fmt) strings; every caller in the
      model establishes both. Outside that domain (a '%' as the last character,
      a `%s` with no argument left, where the C code reads past the end) the
      function stops at the lone '%' and prints nothing for the missing
      argument, so that it is total. */
  function WinFormat(fmt: string, args: seq<string>): (r: string)
    decreases |fmt|
  {
    if fmt == [] then []
    else if fmt[0] == '%' then
      if |fmt| < 2 then []
      else if fmt[1] == 's' && args != [] then args[0] + WinFormat(fmt[2..], args[1..])
      else WinFormat(fmt[2..], args)
    else [fmt[0]] + WinFormat(fmt[1..], args)
  }

  /** `%s` emits the next argument and consumes exactly one; any other directive
      emits nothing and consumes nothing. */
  lemma WinDirective(c: char, args: seq<string>)
    requires c == 's' ==> |args| >= 1
    ensures DirectivesComplete(['%', c])
    ensures StringArgs(['%', c]) == (if c == 's' then 1 else 0)
    ensures WinFormat(['%', c], args) == (if c == 's' then args[0] else [])
  {
    assert ['%', c][2..] == [];
  }

  /** Concatenating two well-formed formats gives a well-formed format that asks
      for the arguments of both. */
  lemma {:induction false} AppendComplete(a: string, b: string)
    requires DirectivesComplete(a) && DirectivesComplete(b)
    ensures DirectivesComplete(a + b)
    ensures StringArgs(a + b) == StringArgs(a) + StringArgs(b)
    ensures SdlArgs(a + b) == SdlArgs(a) + SdlArgs(b)
    decreases |a|
  {
    if a == [] {
      assert a + b == b;
    } else if a[0] == '%' {
      SplitDirective(a, b);
      DirectiveCounts(a[1], a[2..]);
      DirectiveCounts(a[1], a[2..] + b);
      AppendComplete(a[2..], b);
    } else {
      SplitLiteral(a, b);
      LiteralCounts(a[0], a[1..]);
      LiteralCounts(a[0], a[1..] + b);
      AppendComplete(a[1..], b);
    }
  }

  /** A character other than '%' in front of a format changes neither its
      well-formedness nor the number of arguments either walk takes. */
  lemma LiteralCounts(c: char, fmt: string)
    requires c != '%'
    ensures DirectivesComplete([c] + fmt) == DirectivesComplete(fmt)
    ensures StringArgs([c] + fmt) == StringArgs(fmt)
    ensures SdlArgs([c] + fmt) == SdlArgs(fmt)
  {
    assert ([c] + fmt)[1..] == fmt;
  }

  /** A directive in front of a format keeps it well formed, and takes one
      more argument exactly when it is a conversion of that walk. */
  lemma DirectiveCounts(c: char, fmt: string)
    ensures DirectivesComplete(['%', c] + fmt) == DirectivesComplete(fmt)
    ensures StringArgs(['%', c] + fmt) == (if c == 's' then 1 else 0) + StringArgs(fmt)
    ensures SdlArgs(['%', c] + fmt) == (if IsConversion(c) then 1 else 0) + SdlArgs(fmt)
  {
    assert (['%', c] + fmt)[2..] == fmt;
  }

  /** A format starting with a plain character, split after it. */
  lemma SplitLiteral(a: string, b: string)
    requires |a| >= 1
    ensures a == [a[0]] + a[1..] && a + b == [a[0]] + (a[1..] + b)
  {
  }

  /** A format starting with a directive, split after it. */
  lemma SplitDirective(a: string, b: string)
    requires |a| >= 2 && a[0] == '%'
    ensures a == ['%', a[1]] + a[2..] && a + b == ['%', a[1]] + (a[2..] + b)
  {
  }

  /** Formatting a concatenation is formatting each part in turn, the second
      part starting at the first argument the first part left unused. With
      WinDirective and the literal case this says: characters other than '%'
      come out unchanged and in order, and directives are replaced in place. */
  lemma {:induction false} WinFormatAppend(a: string, b: string, args: seq<string>)
    requires DirectivesComplete(a) && DirectivesComplete(b)
    requires StringArgs(a) + StringArgs(b) <= |args|
    ensures DirectivesComplete(a + b) && StringArgs(a + b) <= |args|
    ensures WinFormat(a + b, args) == WinFormat(a, args) + WinFormat(b, args[StringArgs(a)..])
    decreases |a|
  {
    AppendComplete(a, b);
    if a == [] {
      assert a + b == b;
    } else if a[0] == '%' {
      var rest := if a[1] == 's' then args[1..] else args;
      assert rest[StringArgs(a[2..])..] == args[StringArgs(a)..];
      WinFormatAppend(a[2..], b, rest);
      WinFormatAppendDirective(a, b, args);
    } else {
      WinFormatAppend(a[1..], b, args);
      WinFormatAppendLiteral(a, b, args);
    }
  }

  /** The step of WinFormatAppend for a format that starts with a directive. */
  lemma WinFormatAppendDirective(a: string, b: string, args: seq<string>)
    requires |a| >= 2 && a[0] == '%' && StringArgs(a) <= |args|
    requires var rest := if a[1] == 's' then args[1..] else args;
      WinFormat(a[2..] + b, rest) == WinFormat(a[2..], rest) + WinFormat(b, args[StringArgs(a)..])
    ensures WinFormat(a + b, args) == WinFormat(a, args) + WinFormat(b, args[StringArgs(a)..])
  {
    var c, t := a[1], a[2..];
    SplitDirective(a, b);
    DirectiveCounts(c, t);
    WinDirectiveCons(c, t, args);
    WinDirectiveCons(c, t + b, args);
    if c == 's' {
      Regroup(WinFormat(a + b, args), args[0], WinFormat(t, args[1..]), WinFormat(b, args[StringArgs(a)..]));
    }
  }

  /** A directive in front of a format: `%s` prints the next argument and the
      walk goes on with the rest of the arguments; any other directive prints
      nothing. */
  lemma WinDirectiveCons(c: char, fmt: string, args: seq<string>)
    ensures WinFormat(['%', c] + fmt, args) ==
      if c == 's' && args != [] then args[0] + WinFormat(fmt, args[1..]) else WinFormat(fmt, args)
  {
    assert (['%', c] + fmt)[2..] == fmt;
  }

  /** The step of WinFormatAppend for a format that starts with a plain character. */
  lemma WinFormatAppendLiteral(a: string, b: string, args: seq<string>)
    requires |a| >= 1 && a[0] != '%' && StringArgs(a) <= |args|
    requires WinFormat(a[1..] + b, args) == WinFormat(a[1..], args) + WinFormat(b, args[StringArgs(a)..])
    ensures WinFormat(a + b, args) == WinFormat(a, args) + WinFormat(b, args[StringArgs(a)..])
  {
    var c, t := a[0], a[1..];
    SplitLiteral(a, b);
    LiteralCounts(c, t);
    WinLiteral(c, t, args);
    WinLiteral(c, t + b, args);
    Regroup(WinFormat(a + b, args), [c], WinFormat(t, args), WinFormat(b, args[StringArgs(a)..]));
  }

  /** A character other than '%' comes out as it is, ahead of the rest. */
  lemma WinLiteral(c: char, fmt: string, args: seq<string>)
    requires c != '%'
    ensures WinFormat([c] + fmt, args) == [c] + WinFormat(fmt, args)
  {
    assert ([c] + fmt)[1..] == fmt;
  }

  /** Moving the brackets of a three-part concatenation. */
  lemma Regroup(w: string, x: string, y: string, z: string)
    requires w == x + (y + z)
    ensures w == (x + y) + z
  {
  }

  /** Arguments beyond those the format asks for are never read. */
  lemma {:induction false} WinFormatIgnoresExtra(fmt: string, args: seq<string>, extra: seq<string>)
    requires DirectivesComplete(fmt) && StringArgs(fmt) <= |args|
    ensures WinFormat(fmt, args + extra) == WinFormat(fmt, args)
    decreases |fmt|
  {
    if fmt == [] {
    } else if fmt[0] == '%' {
      if fmt[1] == 's' {
        assert (args + extra)[1..] == args[1..] + extra;
        WinFormatIgnoresExtra(fmt[2..], args[1..], extra);
      } else {
        WinFormatIgnoresExtra(fmt[2..], args, extra);
      }
    } else {
      WinFormatIgnoresExtra(fmt[1..], args, extra);
    }
  }

  /** A format with one `%s` at its end and no other '%': the literal text, then
      the argument. */
  lemma WinFormatTrailingString(text: string, arg: string)
    requires '%' !in text
    ensures DirectivesComplete(text + "%s") && StringArgs(text + "%s") == 1
    ensures WinFormat(text + "%s", [arg]) == text + arg
  {
    WinFormatPlain(text, [arg]);
    WinDirective('s', [arg]);
    assert ['%', 's'] == "%s";
    AppendComplete(text, "%s");
    WinFormatAppend(text, "%s", [arg]);
  }

  /** Every character of a format without '%' comes out unchanged, in order,
      and no argument is read. */
  lemma {:induction false} WinFormatPlain(fmt: string, args: seq<string>)
    requires '%' !in fmt
    ensures DirectivesComplete(fmt) && StringArgs(fmt) == 0
    ensures WinFormat(fmt, args) == fmt
  {
    PlainIsComplete(fmt);
    if fmt != [] {
      assert fmt[0] in fmt;
      assert '%' !in fmt[1..] by {
        forall k | 0 <= k < |fmt[1..]| ensures fmt[1..][k] != '%' { assert fmt[1..][k] == fmt[k + 1]; }
      }
      WinFormatPlain(fmt[1..], args);
    }
  }

  // ---------------------------------------------------------------------------
  // SDL branch: `%s`, `%d`, `%f`

  /** An argument passed through the variadic list. `%f` arguments are carried
      as the text the C library prints for them. */
  datatype Arg = Str(s: string) | Int(i: int) | Double(printed: string)

  /** The directives of the SDL branch that consume an argument. */
  predicate IsConversion(c: char)
  {
    c == 's' || c == 'd' || c == 'f'
  }

  /** The argument read for directive `c` has the type the directive reads. */
  predicate Matches(c: char, a: Arg)
  {
    (c == 's' && a.Str? && IsCString(a.s)) || (c == 'd' && a.Int?) || (c == 'f' && a.Double?)
  }

  /** The argument list holds, in order, an argument of the right type for every
      conversion the walk over `fmt` meets. */
  predicate ArgsFit(fmt: string, args: seq<Arg>)
    decreases |fmt|
  {
    if fmt == [] then true
    else if fmt[0] == '%' then
      if |fmt| < 2 then true
      else if IsConversion(fmt[1]) then |args| >= 1 && Matches(fmt[1], args[0]) && ArgsFit(fmt[2..], args[1..])
      else ArgsFit(fmt[2..], args)
    else ArgsFit(fmt[1..], args)
  }

  /** What `fprintf` prints for one argument under its directive. */
  function Render(a: Arg): string
  {
    match a
    case Str(s) => s
    case Int(i) => IntDecimal(i)
    case Double(printed) => printed
  }

  /** The characters `output` writes to its stream for `fmt` and `args`. As
      with WinFormat, only formats that are DirectivesComplete with arguments
      that satisfy ArgsFit are meaningful; elsewhere the function stops at a
      lone trailing '%' and prints nothing for a missing argument. */
  function SdlFormat(fmt: string, args: seq<Arg>): (r: string)
    decreases |fmt|
  {
    if fmt == [] then []
    else if fmt[0] == '%' then
      if |fmt| < 2 then []
      else if IsConversion(fmt[1]) && args != [] then Render(args[0]) + SdlFormat(fmt[2..], args[1..])
      else SdlFormat(fmt[2..], args)
    else [fmt[0]] + SdlFormat(fmt[1..], args)
  }

  /** Every character of a format without '%' comes out unchanged, in order,
      and no argument is needed. */
  lemma {:induction false} SdlFormatPlain(fmt: string, args: seq<Arg>)
    requires '%' !in fmt
    ensures DirectivesComplete(fmt) && ArgsFit(fmt, args) && SdlArgs(fmt) == 0
    ensures SdlFormat(fmt, args) == fmt
  {
    PlainIsComplete(fmt);
    if fmt != [] {
      assert fmt[0] in fmt;
      assert '%' !in fmt[1..] by {
        forall k | 0 <= k < |fmt[1..]| ensures fmt[1..][k] != '%' { assert fmt[1..][k] == fmt[k + 1]; }
      }
      SdlFormatPlain(fmt[1..], args);
    }
  }

  /** Each of `%s`, `%d`, `%f` consumes one argument and prints it; any other
      directive prints nothing and consumes nothing. */
  lemma SdlDirective(c: char, args: seq<Arg>)
    requires IsConversion(c) ==> |args| >= 1 && Matches(c, args[0])
    ensures DirectivesComplete(['%', c]) && ArgsFit(['%', c], args)
    ensures SdlArgs(['%', c]) == (if IsConversion(c) then 1 else 0)
    ensures SdlFormat(['%', c], args) == (if IsConversion(c) then Render(args[0]) else [])
  {
    assert ['%', c][2..] == [];
  }

  /** A step of the SDL walk at offset `p` of `fmt`, with `next` the first
      unread argument, onto a conversion: it prints that argument and the walk
      resumes two characters on, with the argument after it. */
  lemma SdlStepConversion(fmt: string, p: nat, args: seq<Arg>, next: nat)
    requires p < |fmt| && next <= |args| && fmt[p] == '%'
    requires DirectivesComplete(fmt[p..]) && ArgsFit(fmt[p..], args[next..])
    requires p + 1 < |fmt| ==> IsConversion(fmt[p + 1])
    ensures p + 2 <= |fmt| && next < |args| && Matches(fmt[p + 1], args[next])
    ensures DirectivesComplete(fmt[p + 2..]) && ArgsFit(fmt[p + 2..], args[next + 1..])
    ensures SdlFormat(fmt[p..], args[next..]) == Render(args[next]) + SdlFormat(fmt[p + 2..], args[next + 1..])
  {
    var rest, remaining := fmt[p..], args[next..];
    SplitDirective(rest, []);
    DirectiveCounts(rest[1], rest[2..]);
    SdlDirectiveCons(rest[1], rest[2..], remaining);
    assert rest[1] == fmt[p + 1] && rest[2..] == fmt[p + 2..];
    assert remaining[0] == args[next] && remaining[1..] == args[next + 1..];
  }

  /** A step of the SDL walk onto a directive that is not a conversion: it
      prints nothing, reads no argument, and the walk resumes two characters on. */
  lemma SdlStepOther(fmt: string, p: nat, args: seq<Arg>, next: nat)
    requires p < |fmt| && next <= |args| && fmt[p] == '%'
    requires DirectivesComplete(fmt[p..]) && ArgsFit(fmt[p..], args[next..])
    requires p + 1 < |fmt| ==> !IsConversion(fmt[p + 1])
    ensures p + 2 <= |fmt|
    ensures DirectivesComplete(fmt[p + 2..]) && ArgsFit(fmt[p + 2..], args[next..])
    ensures SdlFormat(fmt[p..], args[next..]) == SdlFormat(fmt[p + 2..], args[next..])
  {
    var rest := fmt[p..];
    SplitDirective(rest, []);
    DirectiveCounts(rest[1], rest[2..]);
    SdlDirectiveCons(rest[1], rest[2..], args[next..]);
    assert rest[1] == fmt[p + 1] && rest[2..] == fmt[p + 2..];
  }

  /** A step of the SDL walk onto a plain character: it prints the character
      and the walk resumes one character on. */
  lemma SdlStepPlain(fmt: string, p: nat, args: seq<Arg>, next: nat)
    requires p < |fmt| && next <= |args| && fmt[p] != '%'
    requires DirectivesComplete(fmt[p..]) && ArgsFit(fmt[p..], args[next..])
    ensures DirectivesComplete(fmt[p + 1..]) && ArgsFit(fmt[p + 1..], args[next..])
    ensures SdlFormat(fmt[p..], args[next..]) == [fmt[p]] + SdlFormat(fmt[p + 1..], args[next..])
  {
    var rest := fmt[p..];
    SplitLiteral(rest, []);
    LiteralCounts(rest[0], rest[1..]);
    SdlLiteral(rest[0], rest[1..], args[next..]);
    assert rest[1..] == fmt[p + 1..];
  }

  /** The number of arguments the SDL walk over `fmt` takes. */
  function SdlArgs(fmt: string): nat
    decreases |fmt|
  {
    if fmt == [] then 0
    else if fmt[0] == '%' then
      if |fmt| < 2 then 0
      else (if IsConversion(fmt[1]) then 1 else 0) + SdlArgs(fmt[2..])
    else SdlArgs(fmt[1..])
  }

  /** Formatting a concatenation is formatting each part in turn, the second
      part starting at the first argument the first part left unused. */
  lemma {:induction false} SdlFormatAppend(a: string, b: string, args: seq<Arg>)
    requires DirectivesComplete(a) && DirectivesComplete(b)
    requires ArgsFit(a, args)
    requires SdlArgs(a) <= |args| && ArgsFit(b, args[SdlArgs(a)..])
    ensures DirectivesComplete(a + b) && ArgsFit(a + b, args)
    ensures SdlFormat(a + b, args) == SdlFormat(a, args) + SdlFormat(b, args[SdlArgs(a)..])
    decreases |a|
  {
    AppendComplete(a, b);
    if a == [] {
      assert a + b == b;
    } else if a[0] == '%' {
      var rest := if IsConversion(a[1]) then args[1..] else args;
      assert rest[SdlArgs(a[2..])..] == args[SdlArgs(a)..];
      SdlFormatAppend(a[2..], b, rest);
      SdlFormatAppendDirective(a, b, args);
    } else {
      SdlFormatAppend(a[1..], b, args);
      SdlFormatAppendLiteral(a, b, args);
    }
  }

  /** The step of SdlFormatAppend for a format that starts with a directive. */
  lemma SdlFormatAppendDirective(a: string, b: string, args: seq<Arg>)
    requires |a| >= 2 && a[0] == '%' && ArgsFit(a, args) && SdlArgs(a) <= |args|
    requires var rest := if IsConversion(a[1]) then args[1..] else args;
      ArgsFit(a[2..] + b, rest) &&
      SdlFormat(a[2..] + b, rest) == SdlFormat(a[2..], rest) + SdlFormat(b, args[SdlArgs(a)..])
    ensures ArgsFit(a + b, args)
    ensures SdlFormat(a + b, args) == SdlFormat(a, args) + SdlFormat(b, args[SdlArgs(a)..])
  {
    var c, t := a[1], a[2..];
    SplitDirective(a, b);
    DirectiveCounts(c, t);
    SdlDirectiveCons(c, t, args);
    SdlDirectiveCons(c, t + b, args);
    if IsConversion(c) {
      Regroup(SdlFormat(a + b, args), Render(args[0]), SdlFormat(t, args[1..]), SdlFormat(b, args[SdlArgs(a)..]));
    }
  }

  /** The step of SdlFormatAppend for a format that starts with a plain character. */
  lemma SdlFormatAppendLiteral(a: string, b: string, args: seq<Arg>)
    requires |a| >= 1 && a[0] != '%' && SdlArgs(a) <= |args|
    requires ArgsFit(a[1..] + b, args)
    requires SdlFormat(a[1..] + b, args) == SdlFormat(a[1..], args) + SdlFormat(b, args[SdlArgs(a)..])
    ensures ArgsFit(a + b, args)
    ensures SdlFormat(a + b, args) == SdlFormat(a, args) + SdlFormat(b, args[SdlArgs(a)..])
  {
    var c, t := a[0], a[1..];
    SplitLiteral(a, b);
    LiteralCounts(c, t);
    SdlLiteral(c, t, args);
    SdlLiteral(c, t + b, args);
    Regroup(SdlFormat(a + b, args), [c], SdlFormat(t, args), SdlFormat(b, args[SdlArgs(a)..]));
  }

  /** A character other than '%' comes out as it is, ahead of the rest, and
      asks for no argument. */
  lemma SdlLiteral(c: char, fmt: string, args: seq<Arg>)
    requires c != '%'
    ensures ArgsFit([c] + fmt, args) == ArgsFit(fmt, args)
    ensures SdlFormat([c] + fmt, args) == [c] + SdlFormat(fmt, args)
  {
    assert ([c] + fmt)[1..] == fmt;
  }

  /** A directive in front of a format: a conversion prints the next argument
      and the walk goes on with the rest of the arguments; any other directive
      prints nothing. */
  lemma SdlDirectiveCons(c: char, fmt: string, args: seq<Arg>)
    ensures ArgsFit(['%', c] + fmt, args) ==
      if IsConversion(c) then |args| >= 1 && Matches(c, args[0]) && ArgsFit(fmt, args[1..])
      else ArgsFit(fmt, args)
    ensures SdlFormat(['%', c] + fmt, args) ==
      if IsConversion(c) && args != [] then Render(args[0]) + SdlFormat(fmt, args[1..]) else SdlFormat(fmt, args)
  {
    assert (['%', c] + fmt)[2..] == fmt;
  }

  /** The two branches agree on formats whose only conversions are `%s`. */
  lemma {:induction false} BranchesAgreeOnStrings(fmt: string, args: seq<string>)
    requires DirectivesComplete(fmt) && StringArgs(fmt) <= |args|
    requires forall k :: 0 <= k < |args| ==> IsCString(args[k])
    requires NoNumericDirective(fmt)
    ensures ArgsFit(fmt, StrArgs(args))
    ensures SdlFormat(fmt, StrArgs(args)) == WinFormat(fmt, args)
    decreases |fmt|
  {
    if fmt == [] {
    } else if fmt[0] == '%' {
      if fmt[1] == 's' {
        assert StrArgs(args)[1..] == StrArgs(args[1..]);
        BranchesAgreeOnStrings(fmt[2..], args[1..]);
      } else {
        BranchesAgreeOnStrings(fmt[2..], args);
      }
    } else {
      BranchesAgreeOnStrings(fmt[1..], args);
    }
  }

  /** No `%d` or `%f` directive: the formats the WINDOWS branch can print fully. */
  predicate NoNumericDirective(fmt: string)
    decreases |fmt|
  {
    if fmt == [] then true
    else if fmt[0] == '%' then |fmt| >= 2 && fmt[1] != 'd' && fmt[1] != 'f' && NoNumericDirective(fmt[2..])
    else NoNumericDirective(fmt[1..])
  }

  function StrArgs(args: seq<string>): (r: seq<Arg>)
    ensures |r| == |args| && forall k :: 0 <= k < |args| ==> r[k] == Str(args[k])
  {
    seq(|args|, k requires 0 <= k < |args| => Str(args[k]))
  }

  // ---------------------------------------------------------------------------
  // The C library's `%d`: signed decimal

  function Digit(d: nat): (c: char)
    requires d < 10
    ensures '0' <= c <= '9'
  {
    ('0' as int + d) as char
  }

  predicate IsDigits(s: string)
  {
    forall i :: 0 <= i < |s| ==> '0' <= s[i] <= '9'
  }

  /** The decimal digits of `n`, most significant first, with no leading zero. */
  function NatDecimal(n: nat): (r: string)
    ensures |r| >= 1 && IsDigits(r)
    ensures r[0] == '0' ==> n == 0 && r == "0"
    decreases n
  {
    if n < 10 then [Digit(n)] else NatDecimal(n / 10) + [Digit(n % 10)]
  }

  /** What `%d` prints: a '-' for negative values, then the digits of the magnitude. */
  function IntDecimal(i: int): (r: string)
    ensures |r| >= 1 && (r[0] == '-' <==> i < 0)
  {
    var r := if i < 0 then "-" + NatDecimal(-i) else NatDecimal(i);
    assert IsDigits(r[1..]);
    r
  }

  /** The value of a string of decimal digits. */
  function DigitsValue(s: string): nat
    requires IsDigits(s)
    decreases |s|
  {
    if s == [] then 0 else 10 * DigitsValue(s[..|s| - 1]) + (s[|s| - 1] as int - '0' as int)
  }

  /** Reads back what IntDecimal prints. */
  function ParseDecimal(s: string): int
    requires |s| >= 1
    requires IsDigits(if s[0] == '-' then s[1..] else s)
  {
    if s[0] == '-' then -(DigitsValue(s[1..]) as int) else DigitsValue(s)
  }

  lemma {:induction false} NatDecimalRoundTrip(n: nat)
    ensures DigitsValue(NatDecimal(n)) == n
    decreases n
  {
    if n >= 10 {
      var r := NatDecimal(n);
      assert r[..|r| - 1] == NatDecimal(n / 10);
      NatDecimalRoundTrip(n / 10);
    }
  }

  /** `%d` loses nothing: its text reads back as the integer printed. */
  lemma IntDecimalRoundTrip(i: int)
    ensures IsDigits(if IntDecimal(i)[0] == '-' then IntDecimal(i)[1..] else IntDecimal(i))
    ensures ParseDecimal(IntDecimal(i)) == i
  {
    if i < 0 {
      assert IntDecimal(i)[1..] == NatDecimal(-i);
      NatDecimalRoundTrip(-i);
    } else {
      NatDecimalRoundTrip(i);
    }
  }
}
