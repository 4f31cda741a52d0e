# relative_traceback in Dafny

`relative_traceback.py` formats Python tracebacks the way the standard
`traceback` module does, with one change: a frame whose file lies under the
current working directory is printed as `./` followed by the path relative
to that directory. It does this through two subclasses:

- `_RelativeStackSummary` builds a stack from frame summaries or tuples
  (`from_list`). It renders the stack one text block per frame (`format`),
  collapsing runs of identical frames after the recursion cutoff.
- `_RelativeTracebackException` builds the record of an exception and,
  recursively, of its `__cause__` and `__context__`. It shares one set of
  visited exceptions across the walk, so a cycle ends it.

This project models that core and proves what it promises.

- `wrappers.dfy`: `Option`.
- `strings.dfy`: the parts of Python's `str` that the rendering uses:
  - `str.strip()` (with Python's whitespace set);
  - `str(int)` with its read-back;
  - the `<` order on strings.
- `paths.dfy`: POSIX `pathlib` paths as sequences of components:
  - `str(path)`;
  - `is_relative_to` and `relative_to`;
  - the `./` rewrite that `format` applies.
- `frames.dfy`: `FrameSummary` as a datatype, `sorted(frame.locals.items())`,
  and the text block of one frame.
- `runs.dfy`: which frames `format` shows and where its summary lines go,
  viewed three ways:
  - run by run (`Plan`);
  - frame by frame (`ItemsUpTo`);
  - in the order one pass over the frames emits them (`Emitted`).

  Lemmas prove the three views equal.
- `stack_summary.dfy`:
  - the class `RelativeStackSummary`, whose `frames` field is the list the
    Python object is;
  - `FromList`;
  - `Format`, the loop of `format` with its `last_file`/`last_line`/
    `last_name`/`count` variables, proved to render exactly the plan.
- `traceback_exception.dfy`: the constructor of `_RelativeTracebackException`:
  - The live exceptions are a heap from identity (`id(...)`) to attributes.
  - The shared `_seen` set is passed into each recursive call and returned
    from it, so a callee's additions are visible to its caller, as with
    the shared mutable set.
  - `Construct` is the outer call with `_seen=None`. It is proved to
    describe exactly the exceptions reachable from `exc_value` through
    cause and context links, each exactly once.

The current working directory (`Path.cwd()`) and the recursion cutoff
(`traceback._RECURSIVE_CUTOFF`) are parameters. The cutoff is required to be
positive.

## Model

| member | source | states |
|---|---|---|
| Strings.Strip | relative_traceback.py:77-78 | `line.strip()` is a slice of the line, with only whitespace cut on either side, and it neither starts nor ends with whitespace |
| Strings.IntToStringRoundTrip | relative_traceback.py:71-75 | the decimal text written for a line number (minus sign, then digits) reads back as the same integer |
| Strings.NatToString | relative_traceback.py:55-56 | `str(n)` of a non-negative count is a non-empty string of digits with no leading zero |
| Strings.LessTrichotomy | relative_traceback.py:80 | Python's string order compares any two distinct names one way or the other |
| Strings.LessTransitive | relative_traceback.py:80 | Python's string order is transitive |
| Paths.RelativeTo | relative_traceback.py:68-69 | `relative_to` succeeds exactly when `is_relative_to` holds, and then gives the unique rest of the path beyond the base |
| Paths.Display | relative_traceback.py:67-69 | a file under the working directory is written as `./` plus its relative path (`./.` for the directory itself); any other file is written as it is |
| Frames.SortLocals | relative_traceback.py:80 | the locals come out in ascending (name, value) order, and are a permutation of the given ones |
| Frames.SortedUnique | relative_traceback.py:80 | only one ordering of a collection of locals is sorted, so it is the one `sorted` returns |
| Frames.LocalRows | relative_traceback.py:80-81 | one `    name = value` line per local, the k-th line for the k-th local |
| Frames.BlockShape | relative_traceback.py:65-82 | a frame block is the header line, then the stripped source line exactly when the line is non-empty, then one line per local in sorted order |
| Runs.RunLenIsRun | relative_traceback.py:44-51 | every frame of a run repeats the one before, and the frame after the run does not |
| Runs.RunPosIsRun | relative_traceback.py:44-62 | `count` for frame i is its position in its run: the run has begun exactly that many frames back |
| Runs.PlanFromItems | relative_traceback.py:52-57 | the plan shows only frames of the stack, and every summary it holds stands for at least one frame |
| Runs.PlanIsPerFrame | relative_traceback.py:43-64 | run by run and frame by frame agree: a frame's block is kept when it is within the cutoff of its run, and a summary follows the last frame of a run longer than the cutoff |
| Runs.Shown | relative_traceback.py:62-64 | frame i gets a block exactly when its position in its run is at most the cutoff (so a run gets at most `cutoff` blocks) |
| Runs.SingleRun | relative_traceback.py:43-88 | n identical frames give the first min(n, cutoff) blocks and, when n > cutoff, one summary for n - cutoff frames |
| Runs.LoneFrame | relative_traceback.py:44-62 | a frame that neither repeats nor is repeated is shown on its own, with no summary |
| Runs.EmittedIsPlan | relative_traceback.py:43-88 | one pass that writes a run's summary when the next run begins, plus the summary written after the loop, gives the plan |
| Runs.EmittedStart | relative_traceback.py:52-62 | a frame beginning a run first closes the previous run's summary, then is shown |
| Runs.EmittedRepeat | relative_traceback.py:62-64 | a repeat within the cutoff is shown |
| Runs.EmittedDropped | relative_traceback.py:63-64 | a repeat past the cutoff is skipped |
| StackSummary.NoneStartsRun | relative_traceback.py:44-51 | a frame with `None` as file, line number or name begins a run of one, which the next frame does not continue, so it is shown |
| StackSummary.StartsRunIff | relative_traceback.py:44-51 | the loop's test fails exactly when the frame has the same non-`None` file, line number and name as the frame before |
| StackSummary.SummaryLineSays | relative_traceback.py:54-57 | a summary line gives the number of frames left out in decimal, and says "times" exactly when that number is above one |
| StackSummary.AppendLocals | relative_traceback.py:80-81 | the loop appends one line per local, in the order given |
| StackSummary.FormatFrame | relative_traceback.py:65-81 | the parts built for a frame are the frame block's parts |
| StackSummary.ShowFrame | relative_traceback.py:65-82 | appending a shown frame's joined block extends the rendering by that frame |
| StackSummary.CloseRun | relative_traceback.py:83-88 | closing a run appends a summary of `count - cutoff` exactly when `count` is above the cutoff |
| StackSummary.RelativeStackSummary.Append | relative_traceback.py:31 | the frame is added at the end, and nothing else changes |
| StackSummary.RelativeStackSummary.FromList | relative_traceback.py:27-35 | the summary has one frame per entry, in order; a frame summary is kept as it is; a tuple becomes a frame with its four fields and no locals |
| StackSummary.RelativeStackSummary.Format | relative_traceback.py:37-89 | `format` raises `TypeError` exactly when some frame has no file name, and then for the first such frame; otherwise its lines are, one per item, the blocks and summary lines of the plan |
| TracebackException.SyntaxRecordOf | relative_traceback.py:158-164 | the `SyntaxError` attributes are copied, with the line number as text (`None` stays `None`, a negative number starts with `-`) |
| TracebackException.SyntaxLinenoRoundTrip | relative_traceback.py:161 | the line number kept as text reads back as the line number |
| TracebackException.Attributes | relative_traceback.py:145-164 | `__suppress_context__` is copied from the value, and is false without one; the stack arguments, type and text are recorded; `AttributeError` is raised exactly when a `SyntaxError` class comes without the attributes |
| TracebackException.Follow | relative_traceback.py:113-144 | a link gets a record exactly when it is not `None` and not yet seen; that record has lookup turned off and the same limit and locals flag; the shared set grows by just what the record describes |
| TracebackException.Build | relative_traceback.py:99-166 | the value joins the shared set. The cause is followed when not yet seen, then the context when seen neither before nor by the cause's walk. The set grows by exactly the exceptions described, none described twice, self-links included |
| TracebackException.Construct | relative_traceback.py:99-166 | from an empty set, the record describes exactly the exceptions reachable from the value through cause and context links, each once |
| TracebackException.DescribedAreReached | relative_traceback.py:113-144 | every exception a record describes is reached from its root through cause and context links |

## Left out

- `_relative_print_exception`, `relative_print_exc` and `use_relative_except` (lines 11-17, 169-174): printing to a file, `sys.exc_info()` and installing `sys.excepthook` are I/O and process state.
- `Path.cwd()` is the parameter `cwd`. Paths are the components `pathlib` has already parsed. The model has no normalisation, no symlinks, no filesystem, and no Windows paths.
- `traceback._RECURSIVE_CUTOFF` is the positive parameter `cutoff` rather than its concrete value.
- `StackSummary.extract`, `traceback.walk_tb`, `_load_lines` and `linecache` are part of the standard library, not of this file. The record keeps the arguments `extract` is called with (`Capture`: the frames, `limit`, `lookup_lines`, `capture_locals`) instead of the extracted stack. `frame.line` is the source line once looked up (`""` when there is none).
- `traceback._some_str` and the `repr` of locals are foreign calls. Their results are given as strings in the model (`Exc.text`, the value half of a `Local`).
- The inherited `TracebackException.format` and `print` (the chain rendering) are not in this file.
- `from_list` unpacking a tuple of the wrong length raises `ValueError`. Entries here are either frame summaries or four-field tuples.
- `_seen.add(id(exc_value))` also adds `id(None)` when there is no value. The model adds nothing then. The only effect is on `None`, which is never a cause or context, so no walk differs.
- `if exc_value` is modelled as "there is a value". Exceptions that are false through `__bool__` or `__len__` are not modelled.
- The shared mutable `_seen` set is modelled as a value passed into each recursive call and returned from it. The records are values: the model keeps in `Record.value` which exception a record describes, so that "described once" can be stated. The Python object has no such field.
- Python's recursion limit is not modelled. The walk terminates because each nested call adds an unvisited exception of the heap to the set.

## Notes on the source

A run of N identical frames, with N above the cutoff, prints `min(N, cutoff)`
blocks before its summary line, not a single block. This is because `format`
keeps a frame's block while `count` is at most the cutoff (lines 62-64). The
model follows the code; see `Runs.SingleRun` and `Runs.Shown`.
