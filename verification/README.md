# A Dafny model of the hello-triangle sample's frame fences, adapter choice, debug log and file helpers

The repository is a Win32 Direct3D 12 "hello triangle" sample. Most of it is a
fixed sequence of calls into the graphics API. Four parts have logic of their
own, and this project models each one and proves what it promises:

- **Frame fences** (`frame_fence.dfy`, module `FrameFence`). This covers
  `dx12_wait_for_gpu`, `dx12_move_to_next_frame`, the synchronisation block of
  `dx_load_assets` and `dx_on_destroy`.
  - `FenceTracker` is a class holding the two-slot `m_fence_values` array,
    `m_frame_index` and an event-open flag.
  - The GPU fence is a ghost counter `completed`. The values signalled on the
    queue are a ghost history `signals`.
  - The invariant `Valid` says four things:
    - the signalled values are exactly 1, 2, 3, … in order;
    - the GPU has never completed past the newest signalled value;
    - the current slot holds the next value to signal;
    - the other slot holds at most the newest value signalled (0 before that slot's first frame).
  - Every operation keeps `Valid`. Because of that, every wait the CPU performs
    targets a value that has already been signalled, so no wait can block
    forever.
  - What the swap chain reports (`GetCurrentBackBufferIndex`) and what the
    fence reports (`GetCompletedValue`) are parameters.
  - `MoveToNextFrame` also returns whether it blocked. The C function returns
    nothing; the extra result only exposes the branch it took.
- **Adapter selection** (`adapter_selection.dfy`, module `AdapterSelection`).
  This covers `dx12_get_hardware_adapter`.
  - An adapter is a record: its id, its software flag, and the answer the
    `D3D12CreateDevice` probe gives for it.
  - An enumeration is the sequence of adapters it yields.
  - Each pass is a loop with `continue`/`break`, proved to return the first
    eligible adapter.
  - The second, plain pass runs only when the first pass found nothing.
- **Debug log** (`format.dfy`, `debug_log.dfy`, `console.dfy`, `cstrings.dfy`).
  This covers `log.cpp`.
  - `Format` gives what the two format walks print, as functions:
    - `WinFormat` is the WINDOWS branch, which knows only `%s`;
    - `SdlFormat` is the SDL branch, which knows `%s`, `%d` and `%f`.
  - `DebugLog.DebugOutput` models the WINDOWS branch:
    - the static buffers of `output_string` (100 chars) and `output_ch`
      (2 chars) are arrays;
    - the text the debugger has received through `OutputDebugStringA` is a
      `seq<char>`.
  - `Console` models the SDL branch. `stdout` and `stderr` are `Stream`
    objects that record what was written to them.
  - Each walking loop is proved to emit exactly what its function says.
- **File helpers** (`assets.dfy`, module `Assets`). This covers `read_file` and
  `read_file_terminated`.
  - The file system is a `map<string, seq<byte>>`.
  - The buffers the helpers allocate are arrays.
  - A missing file is reported through the WINDOWS `error`.

## Model

| member | source | states |
|---|---|---|
| `FrameFence.FenceTracker.Valid` | win32_application.cpp:213-245 | The invariant the fence operations keep. The values signalled so far are 1, 2, 3, … with no gap or repeat. The GPU has completed at most the newest of them. The current slot holds the next value to signal, and the other slot holds at most the newest value signalled (0 before that slot's first frame). It is a predicate with no `ensures`; the methods' contracts are what state that it is kept. |
| `FrameFence.FenceTracker.constructor` | win32_application.h:35-54 | Both fence values start at zero (the zeroed global). The frame index is the back buffer the swap chain reports. There is no event and nothing has been signalled. |
| `FrameFence.FenceTracker.LoadAssets` | win32_application.cpp:360-377 | The fence is created completed up to the current slot's value, which is 0. That slot is bumped to 1, then `WaitForGpu` runs. The result: exactly one signal, of value 1. The slot now holds 2, the GPU has completed 1, the other slot is still 0, and the invariant holds. |
| `FrameFence.FenceTracker.WaitForGpu` | win32_application.cpp:213-225 | Signals the current slot's value, then waits until the fence reaches it. That slot goes up by exactly 1. The frame index and the other slot are unchanged. Afterwards the GPU has completed every value signalled, including every value either slot held before the call. The invariant is kept. |
| `FrameFence.FenceTracker.MoveToNextFrame` | win32_application.cpp:227-246 | Signals the current slot's value. The frame index becomes the one the swap chain reports. It blocks exactly when the observed completed value is below the new slot's stored value. That stored value is at most the newest value signalled (0 before that slot's first frame), and on return the fence has reached it. Only the new slot is written, with the signalled value plus one. The invariant is kept. |
| `FrameFence.FenceTracker.OnDestroy` | win32_application.cpp:435-441 | Waits for the GPU, then closes the event. When the event is closed, everything signalled, including the current slot's old value, is complete. The current slot goes up by exactly 1; the frame index and the other slot are unchanged. The invariant is kept. |
| `FrameFence.FenceTracker.BlockUntil` | win32_application.cpp:219-221 | The blocking wait on a value already signalled. Afterwards the fence is at least the target, has not gone backwards, and is not past the newest signal. |
| `AdapterSelection.FirstEligible` | win32_application.cpp:39-59 | The adapter a pass accepts is a hardware adapter that passes the feature-level 11_0 probe and belongs to the enumeration. There is none exactly when no adapter in the enumeration is eligible. |
| `AdapterSelection.FirstEligibleIsFirst` | win32_application.cpp:39-59 | An eligible adapter with no eligible adapter before it is the one chosen, so the choice is the first in enumeration order. |
| `AdapterSelection.FirstHardwareAdapter` | win32_application.cpp:62-78 | The indexed loop that skips software adapters and breaks on the first adapter the probe accepts returns exactly `FirstEligible` of its enumeration. |
| `AdapterSelection.SelectAdapter` | win32_application.cpp:33-82 | The result is never a software adapter and always passes the probe. It is the preference-ordered pass's find whenever that pass runs and finds one. When `IDXGIFactory6` is missing or that pass finds nothing, it is the first eligible adapter of the plain enumeration, in enumeration order. It is nothing exactly when neither enumeration has an eligible adapter. |
| `AdapterSelection.GetHardwareAdapter` | win32_application.cpp:33-82 | The two-pass search returns exactly `SelectAdapter`, and never a software adapter. The ghost result `plainPassRan` is true exactly when `IDXGIFactory6` is missing or the preference-ordered pass found nothing. When it is true, the adapter is the first eligible one of the plain enumeration. |
| `CStrings.CharAt` | log.cpp:14 | Reading a C string at an index up to its length gives NUL exactly at the end. |
| `CStrings.TakeUntil` | log.cpp:19 | What a NUL-terminated read of a buffer yields: a prefix of the buffer, free of NUL, stopping at the first NUL when there is one. |
| `CStrings.TakeUntilTerminated` | log.cpp:9-19 | A buffer holding `s`, a NUL, then anything reads back as exactly `s`. |
| `Format.DirectivesComplete` | log.cpp:35-46 | A format is well formed when every '%' the walk meets is followed by a directive character. Otherwise the walk steps onto the terminator after a lone trailing '%' and reads past it. A predicate with no `ensures`; `PlainIsComplete` and `AppendComplete` characterise it. |
| `Format.WinFormat` | log.cpp:32-48 | What `output_list` sends, as a function of the format and the string arguments. It carries no `ensures`. `WinFormatPlain`, `WinDirective` and `WinFormatAppend` characterise it, and `DebugOutput.OutputList` is proved to send exactly it. |
| `Format.PlainIsComplete` | log.cpp:34-46 | A format with no '%' never makes the walk step past its terminator. |
| `Format.WinFormatPlain` | log.cpp:34-46 | Under `output_list`, every character of a format without '%' comes out unchanged and in order, and no argument is read. |
| `Format.WinDirective` | log.cpp:35-42 | `%s` emits the next argument and consumes exactly one. Any other directive, `%d` and `%f` included, emits nothing and consumes nothing. |
| `Format.AppendComplete` | log.cpp:35-46 | Two well-formed formats joined are well formed and take the arguments of both, in both branches. |
| `Format.WinFormatAppend` | log.cpp:32-48 | Formatting a concatenation is formatting the first part, then the second part from the first unused argument. With `WinFormatPlain` and `WinDirective`, this places each literal and each directive's output where it stands. |
| `Format.WinFormatIgnoresExtra` | log.cpp:32-48 | Arguments beyond those the format asks for are never read. |
| `Format.WinFormatTrailingString` | log.cpp:32-48 | Text without '%' followed by `%s` prints the text, then the argument. |
| `Format.Render` | log.cpp:80-94 | What `fprintf` prints for one argument: the string for `%s`, the decimal text for `%d`, and the carried text for `%f`. It carries no `ensures`; `IntDecimal` and `IntDecimalRoundTrip` state the `%d` text. |
| `Format.SdlFormat` | log.cpp:74-100 | What `output` writes, as a function of the format and the typed arguments. It carries no `ensures`. `SdlFormatPlain`, `SdlDirective` and `SdlFormatAppend` characterise it, and `Console.Output` is proved to write exactly it. |
| `Format.SdlFormatPlain` | log.cpp:76-99 | Under `output`, every character of a format without '%' comes out unchanged and in order, and no argument is needed. |
| `Format.SdlDirective` | log.cpp:78-95 | `%s`, `%d` and `%f` each consume one argument of their type and print it. Any other directive prints nothing and consumes nothing. |
| `Format.SdlStepConversion` | log.cpp:78-92 | A walk step onto a conversion prints the next argument and resumes two characters on, with the argument after it. |
| `Format.SdlStepOther` | log.cpp:78-92 | A walk step onto any other directive prints nothing, reads nothing, and resumes two characters on. |
| `Format.SdlStepPlain` | log.cpp:93-97 | A walk step onto a plain character prints it and resumes one character on. |
| `Format.SdlFormatAppend` | log.cpp:74-100 | Formatting a concatenation is formatting each part in turn, with the second part starting at the first unused argument. |
| `Format.BranchesAgreeOnStrings` | log.cpp:32-100 | For a format with no `%d` or `%f` and string arguments only, the WINDOWS and SDL walks print the same text. |
| `Format.NatDecimal` | log.cpp:85-89 | `%d` prints at least one decimal digit and no leading zero. |
| `Format.IntDecimal` | log.cpp:85-89 | `%d` starts with '-' exactly for negative values. |
| `Format.IntDecimalRoundTrip` | log.cpp:85-89 | The text `%d` prints reads back as the integer printed. |
| `DebugLog.DebugOutput.constructor` | log.cpp:3-27 | The two static buffers exist: 100 and 2 characters, distinct, and the second ends in NUL. Nothing has been sent. |
| `DebugLog.DebugOutput.OutputString` | log.cpp:3-20 | Zeroes the 100-character buffer, copies the string up to its terminator and sends it. The debugger receives exactly the string. The string must be shorter than the buffer. |
| `DebugLog.DebugOutput.OutputChar` | log.cpp:22-30 | The debugger receives the character, or nothing for NUL. The buffer's terminator stays in place. |
| `DebugLog.DebugOutput.OutputList` | log.cpp:32-48 | The pointer-walking loop sends exactly `WinFormat` of the format and arguments. |
| `DebugLog.DebugOutput.Log` | log.cpp:50-56 | The formatted message, then exactly one newline. |
| `DebugLog.DebugOutput.Error` | log.cpp:58-68 | `"error: "`, the formatted message, then one newline. The line number is not printed. |
| `Console.Stream.Put` | log.cpp:83-96 | The `fputc`/`fprintf` sink: the stream's contents grow by exactly the text written, at the end. |
| `Console.Output` | log.cpp:74-100 | The pointer-walking loop writes exactly `SdlFormat` of the format and arguments to the stream. |
| `Console.Convert` | log.cpp:80-94 | Each of `%s`, `%d` and `%f` prints the rendering of its argument. |
| `Console.StdStreams.Log` | log.cpp:102-108 | On stdout, the formatted message and one newline. |
| `Console.PrefixIsPlain` | log.cpp:112 | A fixed prefix given to `output` with no arguments is printed as it is. |
| `Console.StdStreams.ErrorAt` | log.cpp:110-120 | On stderr: `"error: "`, the message, `" @ or near line N "` exactly when the line number is not 0, then a newline. |
| `Console.StdStreams.Error` | log.cpp:122-129 | On stderr: `"error: "`, the message, then a newline. |
| `Console.StdStreams.Warning` | log.cpp:131-141 | On stderr: `"warning: "`, the message, `"@ or near line N "` (no leading space) exactly when the line number is not 0, then a newline. |
| `Console.LineNote` | log.cpp:118 | The line note is empty exactly for line 0. Otherwise it starts with its prefix and ends with one space. |
| `Console.LineNoteRoundTrip` | log.cpp:139 | The number in a line note reads back as the line number. |
| `Assets.CannotOpenReport` | assets.cpp:21 | `"Cannot open file %s"` is a well-formed format taking one string, and prints the text followed by the file name. |
| `Assets.ReadFile` | assets.cpp:5-24 | For a file that opens: size equals the file's length and a fresh buffer holds all its bytes, with nothing logged. Otherwise: size 0, null memory, and `"error: Cannot open file <name>\n"` logged. The path is left unset in both cases. |
| `Assets.ReadFileTerminated` | assets.cpp:28-43 | Size is the file's size plus one. A fresh buffer holds the file's bytes followed by one 0; for a missing file that is only the 0. The path is the name asked for. |
| `Assets.TerminatedReadsAsString` | assets.cpp:26-40 | Read as a C string, the terminated buffer gives the file up to its first 0 byte, and the whole file when the file has no 0 byte. |

## Left out

- Signalling, waiting and the swap chain:
  - the failure branches after `Signal`, `SetEventOnCompletion`, `CreateFence` and `CreateEvent`, which only log through `output`, are not modelled; every call is taken to succeed;
  - the real event wait and the asynchronous GPU are not modelled either: the GPU's progress is the ghost `completed`, and `GetCompletedValue` and `GetCurrentBackBufferIndex` are parameters.
- FrameFence.FenceTracker: fence values are unbounded naturals, so the `UINT64` wrap-around is not modelled. It would take 2^64 frames.
- All Direct3D 12 and DXGI object creation is out of scope: device, queue, swap chain, heaps, root signature, shaders, pipeline state, command lists, barriers, `Present`. So are COM reference counting and `ComPtr::Detach`. The window, message pump, timing and floating-point viewport setup are out too.
- AdapterSelection.Adapter: an adapter carries only what the search reads (its software flag and the probe's answer) plus an id. `GetDesc1` failures are not modelled. As in WRL's `ComPtr` `operator&`, an enumeration call that fails leaves the handle null.
- The first-use allocation of the two static buffers in `log.cpp` is modelled as one allocation when the `DebugOutput` is built. `malloc` failure is not modelled.
- DebugLog.DebugOutput.OutputString: its precondition asks for a string shorter than 100 characters. The C code has no bounds check, so a longer string overruns the buffer.
- Assets.ReadFile and Assets.ReadFileTerminated: for a missing file they require a name shorter than 100 characters. The C code passes the name through `error`, `output_list` and `%s` to `output_string`. A name of 100 or more characters overruns the 100-byte debug buffer, and one of exactly 100 leaves it without a terminator for `OutputDebugStringA`. That is a latent bug in the source, and the model does not cover those names.
- Format.WinFormat and Format.SdlFormat are meaningful only on formats with no lone trailing '%' (`DirectivesComplete`) and with enough arguments of the right types. The C walks read past the terminator or misread `va_arg` otherwise, so every method requires both. Outside that domain the functions stop at the lone '%' and print nothing for a missing argument, only so that they are total.
- Format.Arg: `%f` arguments are carried as the text `fprintf("%f")` prints, because floating-point formatting is not modelled. `%d` arguments are unbounded integers; the C `int` range is not enforced.
- The output sinks `OutputDebugStringA`, `fprintf` and `fputc` are modelled as appending to a character sequence. Their failures are not modelled.
- DebugLog.DebugOutput.SendBuffer is a modelling assumption about `OutputDebugStringA`, not a property of this code: the debugger receives the buffer up to its first NUL.
- AdapterSelection.EnumAt is a modelling assumption about `EnumAdapterByGpuPreference` and `EnumAdapters1`, not a property of this code: a call succeeds exactly for indices within the enumeration and yields the adapter at that index.
- Files are modelled as a map from path to bytes, so I/O errors other than a missing file are not modelled. That includes an `ftell` failure, a short `fread` and a `malloc` failure.
- `read_file_terminated` never frees the buffer `read_file` returned, so it leaks. The model does not track freeing.
- For a missing file, `read_file_terminated` calls `memcpy` with a null source and a length of 0. The model copies nothing.
- The WINDOWS `error` ignores its line number: the line that would print it is commented out in the source, and the model follows the code.
- The OpenGL debug callbacks in `log.cpp` are foreign API glue.
