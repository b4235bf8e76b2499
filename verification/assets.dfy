/**
 * The file helpers of assets.cpp. The file system is a map from path to the
 * bytes of the file at that path: a path that is not in the map cannot be
 * opened. A `File` is the struct the helpers return; its `memory` is the heap
 * buffer they allocate, or null.
 *
 * A missing file is reported through the `error` of the WINDOWS branch of
 * log.cpp, so the model of `read_file` writes to a DebugOutput.
 */
module Assets {
  import opened Wrappers
  import opened CStrings
  import opened Format
  import opened DebugLog

  newtype byte = x: int | 0 <= x < 256

  /** `File`: the size in bytes, the buffer holding them, the path it was read from. */
  datatype File = File(size: nat, memory: array?<byte>, path: Option<string>)

  /** The bytes a path names: the file's contents, or nothing when it cannot be opened. */
  function FileBytes(fs: map<string, seq<byte>>, filename: string): seq<byte>
  {
    if filename in fs then fs[filename] else []
  }

  /** The text the missing-file report prints before the name, and the report's format. */
  const CannotOpen: string := "Cannot open file "
  const CannotOpenFormat: string := CannotOpen + "%s"

  /** The missing-file report is a format `error` accepts, and prints the
      text followed by the file name. */
  lemma CannotOpenReport(filename: string)
    ensures IsCString(CannotOpenFormat) && DirectivesComplete(CannotOpenFormat)
    ensures StringArgs(CannotOpenFormat) == 1
    ensures WinFormat(CannotOpenFormat, [filename]) == CannotOpen + filename
  {
    assert '%' !in CannotOpen && '\0' !in CannotOpen;
    WinFormatTrailingString(CannotOpen, filename);
  }

  /** `read_file`: for a file that opens, a buffer of its length holding all
      its bytes; otherwise an empty File and the error report "Cannot open
      file <name>". The path is left unset either way. */
  method ReadFile(fs: map<string, seq<byte>>, filename: string, log: DebugOutput) returns (result: File)
    requires log.Valid() && IsCString(filename)
    requires filename !in fs ==> |filename| < StringBufferSize
    modifies log`debugger, log.stringBuffer, log.charBuffer
    ensures log.Valid()
    ensures result.path.None?
    ensures filename in fs ==>
      && result.size == |fs[filename]|
      && result.memory != null && fresh(result.memory)
      && result.memory[..] == fs[filename]
      && log.debugger == old(log.debugger)
    ensures filename !in fs ==>
      && result.size == 0 && result.memory == null
      && log.debugger == old(log.debugger) + "error: " + CannotOpen + filename + "\n"
  {
    result := File(0, null, None);
    if filename in fs {
      var contents := fs[filename];
      // fseek to the end and ftell: the size; then malloc and fread.
      var size := |contents|;
      var memory := new byte[size];
      forall i | 0 <= i < size {
        memory[i] := contents[i];
      }
      result := result.(size := size, memory := memory);
    } else {
      CannotOpenReport(filename);
      log.Error(0, CannotOpenFormat, [filename]);
    }
  }

  /** `read_file_terminated`: the file's bytes followed by one 0 byte, in a
      buffer one longer than the file, with the path set to the name asked for.
      A missing file gives a buffer holding only the 0. */
  method ReadFileTerminated(fs: map<string, seq<byte>>, filename: string, log: DebugOutput) returns (result: File)
    requires log.Valid() && IsCString(filename)
    requires filename !in fs ==> |filename| < StringBufferSize
    modifies log`debugger, log.stringBuffer, log.charBuffer
    ensures log.Valid()
    ensures result.size == |FileBytes(fs, filename)| + 1
    ensures result.memory != null && fresh(result.memory)
    ensures result.memory[..] == FileBytes(fs, filename) + [0]
    ensures result.path == Some(filename)
    ensures filename in fs ==> log.debugger == old(log.debugger)
    ensures filename !in fs ==> log.debugger == old(log.debugger) + "error: " + CannotOpen + filename + "\n"
  {
    var file := ReadFile(fs, filename, log);
    var memory := new byte[file.size + 1];
    // memcpy of the file's bytes
    var i := 0;
    while i < file.size
      modifies memory
      invariant 0 <= i <= file.size
      invariant forall k :: 0 <= k < i ==> memory[k] == file.memory[k]
    {
      memory[i] := file.memory[i];
      i := i + 1;
    }
    memory[file.size] := 0;
    result := File(file.size + 1, memory, Some(filename));
    assert memory[..] == FileBytes(fs, filename) + [0];
  }

  /** Read as a NUL-terminated string, the terminated buffer gives the file up
      to its first 0 byte, and so the whole file when it holds no 0 byte. */
  lemma {:induction false} TerminatedReadsAsString(bytes: seq<byte>)
    ensures TakeUntil(bytes + [0], 0) == TakeUntil(bytes, 0)
    ensures 0 !in bytes ==> TakeUntil(bytes + [0], 0) == bytes
  {
    if bytes != [] && bytes[0] != 0 {
      assert (bytes + [0])[1..] == bytes[1..] + [0];
      TerminatedReadsAsString(bytes[1..]);
    }
  }
}
