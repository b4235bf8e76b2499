/**
 * The WINDOWS branch of log.cpp: text goes to the debugger through
 * `OutputDebugStringA`, which reads a NUL-terminated buffer. The two static
 * buffers of `output_string` (100 characters) and `output_ch` (2 characters)
 * are arrays of this object; everything the debugger has received so far is
 * the sequence `debugger`.
 */
module DebugLog {
  import opened CStrings
  import opened Format

  /** Size of the buffer `output_string` copies its argument into. */
  const StringBufferSize: nat := 100

  /** A string `output_string` can copy without running off its buffer: the
      copy and the terminator after it both fit. */
  predicate Printable(s: string)
  {
    IsCString(s) && |s| < StringBufferSize
  }

  class DebugOutput {
    var debugger: string
    var stringBuffer: array<char>
    var charBuffer: array<char>

    ghost predicate Valid()
      reads this, charBuffer
    {
      && stringBuffer.Length == StringBufferSize
      && charBuffer.Length == 2
      && charBuffer[1] == '\0'
      && stringBuffer != charBuffer
    }

    /** The two buffers after their first allocation; nothing sent yet. */
    constructor ()
      ensures Valid() && fresh(stringBuffer) && fresh(charBuffer)
      ensures debugger == []
    {
      debugger := [];
      stringBuffer := new char[StringBufferSize](_ => '\0');
      charBuffer := new char[2](_ => '\0');
    }

    /** `OutputDebugStringA`: the debugger receives the buffer up to its first NUL. */
    method SendBuffer(buffer: array<char>)
      modifies this`debugger
      ensures debugger == old(debugger) + TakeUntil(buffer[..], '\0')
    {
      debugger := debugger + TakeUntil(buffer[..], '\0');
    }

    /** `output_string`: clear the buffer, copy `s` into it, send it. */
    method OutputString(s: string)
      requires Valid() && Printable(s)
      modifies this`debugger, stringBuffer
      ensures Valid()
      ensures debugger == old(debugger) + s
    {
      var i := 0;
      while i < StringBufferSize
        invariant 0 <= i <= StringBufferSize
        invariant forall k :: 0 <= k < i ==> stringBuffer[k] == '\0'
        invariant debugger == old(debugger)
      {
        stringBuffer[i] := '\0';
        i := i + 1;
      }
      i := 0;
      while CharAt(s, i) != '\0'
        invariant 0 <= i <= |s|
        invariant forall k :: 0 <= k < i ==> stringBuffer[k] == s[k]
        invariant forall k :: i <= k < StringBufferSize ==> stringBuffer[k] == '\0'
        invariant debugger == old(debugger)
        decreases |s| - i
      {
        stringBuffer[i] := s[i];
        i := i + 1;
      }
      assert stringBuffer[..] == s + ['\0'] + stringBuffer[|s| + 1..];
      TakeUntilTerminated(s, '\0', stringBuffer[|s| + 1..]);
      SendBuffer(stringBuffer);
    }

    /** `output_ch`: put `c` in front of the buffer's fixed terminator, send it.
        A NUL character therefore sends nothing. */
    method OutputChar(c: char)
      requires Valid()
      modifies this`debugger, charBuffer
      ensures Valid()
      ensures debugger == old(debugger) + (if c == '\0' then [] else [c])
    {
      charBuffer[0] := c;
      assert charBuffer[..] == [c, '\0'];
      assert c != '\0' ==> charBuffer[..] == [c] + ['\0'] + [];
      if c != '\0' {
        TakeUntilTerminated([c], '\0', []);
      }
      SendBuffer(charBuffer);
    }

    /** `output_list`: walk the format, sending plain characters one at a time
        and each `%s` argument through `output_string`. */
    method OutputList(fmt: string, args: seq<string>)
      requires Valid() && IsCString(fmt) && DirectivesComplete(fmt)
      requires StringArgs(fmt) <= |args|
      requires forall k :: 0 <= k < StringArgs(fmt) ==> Printable(args[k])
      modifies this`debugger, stringBuffer, charBuffer
      ensures Valid()
      ensures debugger == old(debugger) + WinFormat(fmt, args)
    {
      var p := 0;
      var next := 0;
      while CharAt(fmt, p) != '\0'
        invariant 0 <= p <= |fmt| && Valid()
        invariant DirectivesComplete(fmt[p..])
        invariant next + StringArgs(fmt[p..]) == StringArgs(fmt)
        invariant debugger + WinFormat(fmt[p..], args[next..]) == old(debugger) + WinFormat(fmt, args)
        decreases |fmt| - p
      {
        ghost var rest := fmt[p..];
        if fmt[p] == '%' {
          assert rest[2..] == fmt[p + 2..];
          p := p + 1;
          if fmt[p] == 's' {
            assert args[next..][1..] == args[next + 1..];
            OutputString(args[next]);
            next := next + 1;
          }
        } else {
          assert rest[1..] == fmt[p + 1..];
          OutputChar(fmt[p]);
        }
        p := p + 1;
      }
      assert fmt[p..] == [];
    }

    /** `log`: the formatted message, then one newline. */
    method Log(msg: string, args: seq<string>)
      requires Valid() && IsCString(msg) && DirectivesComplete(msg)
      requires StringArgs(msg) <= |args|
      requires forall k :: 0 <= k < StringArgs(msg) ==> Printable(args[k])
      modifies this`debugger, stringBuffer, charBuffer
      ensures Valid()
      ensures debugger == old(debugger) + WinFormat(msg, args) + "\n"
    {
      OutputList(msg, args);
      OutputChar('\n');
    }

    /** `error`: "error: ", the formatted message, one newline. The line number
        is accepted and not printed. */
    method Error(lineNum: int, msg: string, args: seq<string>)
      requires Valid() && IsCString(msg) && DirectivesComplete(msg)
      requires StringArgs(msg) <= |args|
      requires forall k :: 0 <= k < StringArgs(msg) ==> Printable(args[k])
      modifies this`debugger, stringBuffer, charBuffer
      ensures Valid()
      ensures debugger == old(debugger) + "error: " + WinFormat(msg, args) + "\n"
    {
      OutputString("error: ");
      OutputList(msg, args);
      OutputChar('\n');
    }
  }
}
