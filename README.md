# KnotenCore interpreter core in Dafny

This project models three parts of KnotenCore:

- **The executor** (`src/executor.rs`). It evaluates a small dynamically typed AST over a variable store. Its values are `Int`, `Float`, `Bool`, `Str` and `Void`. Each evaluation ends as a plain value, an early `Return`, or a `Fault` with a message. The engine's `execute` clears the store, evaluates the program and renders a one-line report. The report lists the bindings sorted by name.
- **The native resource registry** (`src/natives/registry.rs`). It is a table from integer handles to reference-counted native resources: counters, timestamps, windows, files, GPU contexts and voxel worlds. One shared counter hands out the handles, starting at 1.
- **The software UI** (`src/natives/ui.rs`). It has one optional window with a flat `width * height` framebuffer. Clearing, clipped rectangle fills and 5x7 bitmap text are drawn into the framebuffer in place. It also maps between key names and keys.

Layout:

- `wrappers.dfy`: `Option`.
- `values.dfy`: `RelType`, `ExecResult`, IEEE equality and order on the bits of an `f64`, truncating division, and `do_math`, `Eq` and `Lt` on evaluated operands.
- `evaluator.dfy`: the AST and `evaluate`, written as a function that threads the store.
- `evaluator_facts.dfy`: lemmas about `evaluate`.
- `report.dfy`: the lexicographic sort of the names, the rendering of the report, and the `ExecutionEngine` class.
- `machine.dfy`: `i64`, `u32` and the `as usize` / `as u32` / `as i32` casts.
- `registry.dfy`: the handle table, as pure table operations and as the `HandleRegistry` class that updates `table` and `nextId` in place.
- `keys.dfy`, `font.dfy`, `ui.dfy`: the key mappings, the glyph table, and the framebuffer and UI classes.

The model replaces the following with parameters:

- **Float arithmetic and `{:?}` formatting.** They are the functions of a `FloatOps` value. Float equality, order and the zero test are written out on the IEEE bit pattern.
- **The results of foreign calls.** Whether a window, file or GPU device could be created, whether a frame was presented, which keys are down, and how many milliseconds have elapsed are all passed in as method parameters.

## Model

| member | source | states |
|---|---|---|
| Values.ValueEqVariantSensitive | src/executor.rs:4-11 | Derived equality holds only between values of the same variant. It is symmetric, and it is reflexive except for NaN. |
| Values.ValueEq | src/executor.rs:4-11 | The derived `PartialEq`: off floats it is exactly structural equality, so values of different variants are never equal. Two floats are equal exactly when IEEE `==` says so. |
| Values.FloatEq | src/executor.rs:135 | IEEE `==` on the bit pattern: a NaN equals nothing, +0.0 equals -0.0, two floats that are `==` have the same bits unless both are zeros, and every non-NaN float is `==` to itself. |
| Values.FloatLt | src/executor.rs:153 | IEEE `<` on the bit pattern: it holds only between two non-NaN floats that are not both zeros. |
| Values.FloatLtIrreflexive | src/executor.rs:153 | IEEE `<` never holds between a float and itself. |
| Values.FloatLtNaN | src/executor.rs:153 | IEEE `<` is false whenever either operand is a NaN. |
| Values.FloatLtAsymmetric | src/executor.rs:153 | IEEE `<` never holds in both directions. |
| Values.FloatLtSignOrder | src/executor.rs:153 | Off NaN and off the pair of zeros, a negative float is below a non-negative one, and non-negative floats are ordered by magnitude. |
| Values.FloatLtExcludesEq | src/executor.rs:135-153 | Floats that are `==` (for example -0.0 and +0.0) are not `<` each other. |
| Values.TruncDiv | src/executor.rs:230 | `i64` division: the quotient's magnitude is the floor of the magnitudes' quotient, and it is negative only when exactly one operand is. |
| Values.TruncDivRemainder | src/executor.rs:230 | `i64` division truncates toward zero. The remainder is smaller than the divisor and carries the sign of the dividend. |
| Values.DoMath | src/executor.rs:216-253 | Never yields an early return. A fault in the left operand wins, then a fault in the right. Int op Int gives exactly `a+b`, `a-b`, `a*b`, or for `/` the truncating quotient `TruncDiv(a, b)`, and "Division by zero" exactly when the divisor is 0. Float op Float gives the host's IEEE result, and "Division by zero" exactly when the divisor is +0.0 or -0.0. Any other pair of values, or an early-return operand, gives "Mathematical type mismatch". |
| Values.EqOutcome | src/executor.rs:130-142 | Two values compare with the derived, variant-sensitive equality. A left fault wins, then a right fault. Any other combination gives "Invalid Eq semantics". |
| Values.LtOutcome | src/executor.rs:143-159 | Int/Int gives `Bool(li < ri)` and Float/Float gives `Bool` of IEEE `<` (`FloatLt`). Otherwise a left fault wins, then a right fault, and anything else gives "Invalid Lt semantics". |
| Evaluator.Eval | src/executor.rs:95-213 | `evaluate`, one case per node kind, threading the store; its properties are the `EvaluatorFacts` lemmas below. |
| Evaluator.EvalMath | src/executor.rs:216-253 | `do_math` evaluates the left operand, then the right one against the left's store, and combines them with `DoMath`. |
| Evaluator.RunWhile | src/executor.rs:177-193 | The `While` loop, re-evaluating its condition on every iteration; `WhileConditionExit`, `WhileBodyStep` and `WhileOutcome` state its behaviour. |
| Evaluator.EvalSeq | src/executor.rs:194-208 | A block's children in order, each against the store the previous one left; `EvalSeqAppend`, `BlockLastChild` and `EmptyBlock` state its behaviour. |
| EvaluatorFacts.IdentifierLookup | src/executor.rs:104-110 | A bound name yields its stored value. An unbound name yields "Undefined identifier". The store is untouched in both cases. |
| EvaluatorFacts.AssignSemantics | src/executor.rs:111-121 | A value or an early return from the right-hand side is bound and yielded as a plain value. A fault is passed on with the right-hand side's store. |
| EvaluatorFacts.ReturnSemantics | src/executor.rs:209-212 | A value becomes an early return. Faults and nested early returns pass through unchanged. |
| EvaluatorFacts.IfSemantics | src/executor.rs:162-176 | `true` runs the then-branch. `false` runs the else-branch when there is one, and yields `Void` otherwise. A fault passes through. Any other condition gives "If condition not a boolean". |
| EvaluatorFacts.WhileConditionExit | src/executor.rs:177-193 | A `false` condition ends the loop with `Void`. A faulting condition ends it with that fault. Any other non-`true` condition gives "While condition not a boolean". |
| EvaluatorFacts.WhileBodyStep | src/executor.rs:178-186 | After a `true` condition, a body value starts the next iteration. A body early return or fault ends the loop with that outcome. |
| EvaluatorFacts.WhileOutcome | src/executor.rs:177-193 | A finished loop yields `Void`, an early return from its body, or a fault. Never any other value. |
| EvaluatorFacts.EvalSeqAppend | src/executor.rs:194-208 | The children of a block run in order. The first early return or fault stops the block, and the later children are not evaluated. |
| EvaluatorFacts.BlockLastChild | src/executor.rs:194-208 | When every earlier child yields a value, a block yields what its last child yields. |
| EvaluatorFacts.EmptyBlock | src/executor.rs:195-207 | An empty block yields `Void` and leaves the store alone. |
| EvaluatorFacts.EvalFrame | src/executor.rs:111-121 | An evaluation changes only names assigned somewhere in the node. Assignments never remove a name. |
| EvaluatorFacts.PureNodeKeepsStore | src/executor.rs:95-213 | A node without assignments leaves the store exactly as it was. |
| EvaluatorFacts.EvalFuelMonotone | src/executor.rs:177-193 | A finished evaluation gives the same result with any larger iteration budget. So the fuel bound never changes an outcome, only whether one is reached. |
| Report.StrLess | src/executor.rs:68 | The `Ord` of `String` that `keys.sort()` uses: nothing is below the empty name, and a proper prefix is below every name it starts. |
| Report.StrLessTotal | src/executor.rs:68 | The name order used by `keys.sort()` is total and asymmetric. |
| Report.StrLessTransitive | src/executor.rs:68 | The name order is transitive. |
| Report.Insert | src/executor.rs:68 | Inserting a name into a sorted list keeps it strictly sorted and adds exactly that name. |
| Report.SortedUnique | src/executor.rs:68 | Two strictly sorted lists with the same names are equal, so the report does not depend on hash-map order. |
| Report.SortKeys | src/executor.rs:58-68 | Collecting the store's keys in any order and sorting them gives the one sorted list of its names. |
| Report.NatToStringRoundTrip | src/executor.rs:80 | A number's decimal text reads back as the number. |
| Report.NatToString | src/executor.rs:80 | The decimal text of a non-negative `i64`: non-empty, all digits, and starting with `0` only for zero. |
| Report.IntToString | src/executor.rs:80 | `i64::to_string`: a non-negative number is exactly its decimal digits, and a negative one is a minus sign followed by the digits of its magnitude. |
| Report.BoolText | src/executor.rs:81 | `bool::to_string`: the text is `true` exactly for true and `false` exactly for false. |
| Report.Display | src/executor.rs:13-23 | `Display for RelType`: an Int is its digits and ` (i64)`; a Float ends in ` (f64)`, a Bool in ` (bool)` and starts with `t` exactly when true; a Str is quoted and ends in ` (String)`; only `Void` is `void`. |
| Report.RenderBindingAsWritten | src/executor.rs:71-86 | The source's listing entry: it panics exactly on a `Void` binding, and otherwise begins with `name = `. |
| Report.RenderBinding | src/executor.rs:71-86 | Each entry begins with `name = `. For every non-`Void` value it agrees with the source's rendering: strings quoted, floats through `{:?}`, ints and bools bare. |
| Report.JoinComma | src/executor.rs:89 | `join(", ")`: no parts give the empty text, the text starts with the first part, and with two or more parts that part is followed by `, `. |
| Report.MemoryListing | src/executor.rs:69-89 | The listing of the names `ks` in that order: empty for no names, and otherwise starting with the first name and ` = `. |
| Report.EntriesAsWritten | src/executor.rs:69-87 | The source's rendering of each listed name: when none panics there is exactly one entry per name. |
| Report.EntriesAsWrittenAgree | src/executor.rs:69-87 | The source's entries fail exactly when some listed name is bound to `Void`. Otherwise they are the `RenderBinding` entries. |
| Report.ReportTextAsWritten | src/executor.rs:42-93 | The source's report: a fault gives `Fault: ` and its message, and a run that leaves no binding never panics. |
| Report.ReportText | src/executor.rs:42-93 | The report with the corrected listing from the Findings row: a fault gives `Fault: ` and its message, and anything else starts with `Return: `. |
| Report.ReportAsWrittenPanicsOnVoid | src/executor.rs:76-83 | The source's report panics exactly when a successful run leaves some name bound to `Void`. In every other case it is `ReportText`. |
| Report.FaultReport | src/executor.rs:51-54 | A fault is reported as `Fault: ` and its message, with no memory listing. |
| Report.SuccessReport | src/executor.rs:46-90 | A value or early return is reported as `Return: ` and its display. A memory listing follows exactly when the store is non-empty. |
| Report.ExecuteReport | src/executor.rs:42-93 | The report `execute` returns for a program run from an empty store, with the corrected listing from the Findings row. There is a report exactly when the evaluation finishes. |
| Report.ExecutionEngine.constructor | src/executor.rs:36-40 | A new engine has an empty store. |
| Report.ExecutionEngine.Execute | src/executor.rs:42-93 | Clears the store, evaluates from it and returns `ExecuteReport`, which lists a `Void` binding as `void` where the source panics (see Findings). The store keeps what the evaluation left, also after a fault. |
| Report.DivisionByZeroScenario | src/executor.rs:226-228 | `{ x = 10; y = 10 / 0 }` reports `Fault: Division by zero` and nothing else. |
| Report.SortedBindingsScenario | src/executor.rs:57-89 | Binding `y` before `x` still lists `x = 1, y = 2`. |
| Report.VoidBindingPanics | src/executor.rs:76-83 | `x = {}` binds `x` to `Void`. The source's report then panics, and the corrected one writes `x = void`. |
| Machine.AsUsize | src/natives/registry.rs:178 | `as usize` keeps non-negative handles. Negative ones wrap to the top half of the range. |
| Machine.AsU32 | src/natives/ui.rs:61 | `as u32` keeps the low 32 bits, so it is the identity on `0..2^32`. |
| Machine.AsI32 | src/natives/registry.rs:581 | `as i32` keeps the low 32 bits as a two's-complement number, so it is the identity on the `i32` range. |
| Registry.Clamp255 | src/natives/registry.rs:513-515 | Clamps a channel to 0..255. |
| Registry.PackColor | src/natives/registry.rs:512-515 | The pixel fits in 24 bits, and its three bytes read back as the clamped red, green and blue. |
| Registry.Retained | src/natives/registry.rs:177-184 | Same handles. A live entry gains exactly one reference, and every other entry is unchanged. |
| Registry.Released | src/natives/registry.rs:186-202 | A live entry loses one reference and is removed when none is left. An absent handle leaves the table exactly as it was. Every other entry is unchanged. |
| Registry.Freed | src/natives/registry.rs:261-273 | The entry is gone whatever its count. Every other entry is unchanged. |
| Registry.Incremented | src/natives/registry.rs:224-240 | A counter goes up by one. A missing or wrong-kind handle changes nothing. Every other entry is unchanged. |
| Registry.CounterValue | src/natives/registry.rs:242-259 | A counter's count, and `-1` for a missing handle or one of another kind. |
| Registry.Filled | src/natives/registry.rs:510-530 | Every pixel of a window's buffer becomes the colour, and its length and size are kept. Any other handle changes nothing. Every other entry is unchanged. |
| Registry.Written | src/natives/registry.rs:426-444 | A file's text gains the written content. Any other handle changes nothing. |
| Registry.WithBlock | src/natives/registry.rs:576-585 | A voxel world gains exactly one voxel, with each coordinate cut to `i32`; its buffer, size and reference count are kept. Any other handle changes nothing. |
| Registry.RetainReleaseRoundTrip | src/natives/registry.rs:177-202 | In a valid table, a retain followed by a release gives back the same table. |
| Registry.RetainedNCount | src/natives/registry.rs:177-184 | `n` retains add exactly `n` references to one entry and touch nothing else. |
| Registry.ReleasedNCount | src/natives/registry.rs:186-202 | Fewer releases than references keep the entry with that many references fewer. |
| Registry.LastReferences | src/natives/registry.rs:186-202 | Releasing an entry as often as it is referenced removes exactly that entry. |
| Registry.BalancedReferences | src/natives/registry.rs:177-202 | `n` retains and then `n` releases restore the table. Releasing once per remaining reference then removes the entry. |
| Registry.OperationsKeepValid | src/natives/registry.rs:177-585 | Every table operation keeps handles in `1..nextId` and every live entry referenced at least once. |
| Registry.FreshHandle | src/natives/registry.rs:162 | The next handle is never in use, and claiming it keeps the table valid. |
| Registry.IncrementThenRead | src/natives/registry.rs:224-259 | Reading back an incremented counter gives one more. Every other handle reads the same as before. |
| Registry.FreedReadsMinusOne | src/natives/registry.rs:242-273 | A freed handle, or a counter released from its last reference, reads `-1`. |
| Registry.HandleRegistry.constructor | src/natives/registry.rs:161-162 | An empty table, with the first handle 1. |
| Registry.HandleRegistry.Allocate | src/natives/registry.rs:205-221 | Returns the next handle (at least 1), which was unused. Advances the counter by one and stores the resource with one reference. |
| Registry.HandleRegistry.Retain | src/natives/registry.rs:177-184 | The table becomes `Retained` at the wrapped handle. |
| Registry.HandleRegistry.Release | src/natives/registry.rs:186-202 | The table becomes `Released` at the wrapped handle. |
| Registry.HandleRegistry.CreateCounter | src/natives/registry.rs:205-222 | A counter at 0 under the next handle, with one reference. |
| Registry.HandleRegistry.Increment | src/natives/registry.rs:224-240 | The table becomes `Incremented`. Reports "not found" or "not a Counter" when the handle is missing or of another kind. |
| Registry.HandleRegistry.GetValue | src/natives/registry.rs:242-259 | Returns a counter's count, or `-1` for any other handle, and changes nothing. Only a missing handle is reported. |
| Registry.HandleRegistry.Free | src/natives/registry.rs:261-273 | The table becomes `Freed`. A missing handle is reported as a double free. |
| Registry.HandleRegistry.WindowClose | src/natives/registry.rs:394-397 | Same as `Free`. |
| Registry.HandleRegistry.Dump | src/natives/registry.rs:275-300 | Counts the live entries one by one and returns their number. |
| Registry.HandleRegistry.Now | src/natives/registry.rs:304-320 | A timestamp under the next handle, with one reference. |
| Registry.HandleRegistry.ElapsedMs | src/natives/registry.rs:322-335 | The elapsed milliseconds for a timestamp handle, `-1` for any other. |
| Registry.HandleRegistry.CreateWindow | src/natives/registry.rs:339-372 | Always uses up a handle. On success it stores a `w*h` buffer of `0x333333` under that handle. On failure it returns `-1` and leaves the table unchanged. |
| Registry.HandleRegistry.WindowUpdate | src/natives/registry.rs:374-392 | True exactly for a window handle whose frame was shown and is still open. |
| Registry.HandleRegistry.FileCreate | src/natives/registry.rs:401-424 | Always uses up a handle. On success it stores an empty file. On failure it returns `-1` and leaves the table unchanged. |
| Registry.HandleRegistry.FileWrite | src/natives/registry.rs:426-444 | An accepted write appends the content to a file. Reports a missing handle, a non-file handle or a failed write, and changes nothing in those cases. |
| Registry.HandleRegistry.GpuInit | src/natives/registry.rs:448-508 | Takes a handle only on success. On failure it returns `-1`, with the table and counter unchanged. |
| Registry.HandleRegistry.FillColor | src/natives/registry.rs:510-530 | The table becomes `Filled` with the packed colour, written one pixel at a time. Reports a missing or non-window handle. |
| Registry.HandleRegistry.VoxelWorldCreate | src/natives/registry.rs:534-574 | Takes a handle only on success. Stores a `w*h` buffer of `0x0d1b2a` and no voxels. |
| Registry.HandleRegistry.VoxelAddBlock | src/natives/registry.rs:576-585 | The table becomes `WithBlock`. Any other handle is ignored silently. |
| Registry.CounterLifecycle | src/natives/registry.rs:205-259 | Create, three increments and a read give 3. After one release, the read gives `-1`. |
| Registry.HandleOrder | src/natives/registry.rs:401-508 | Handles increase across kinds. A failed file creation uses one up, and a failed GPU set-up does not. |
| Keys.NameToKey | src/natives/ui.rs:151-174 | A name has a key exactly when it is one of the 19 known names, and that key is never a keypad key. |
| Keys.KeyToName | src/natives/ui.rs:176-200 | The name is empty exactly for keys outside the table. Otherwise it is one of the known names. |
| Keys.NameRoundTrip | src/natives/ui.rs:151-200 | Looking up a known name and naming the key gives the name back. `Asterisk` is the exception and comes back as `8`. |
| Keys.KeyRoundTrip | src/natives/ui.rs:151-200 | A named non-keypad key is the key its name stands for. A keypad key's name stands for the main key with the same name. The keypad `*`'s name `Asterisk` stands for the `8` key. |
| Font.GetGlyph | src/natives/ui.rs:203-298 | Every glyph is 7 rows of 5 bits. A character outside the table gets the hollow box, and any character in the table gets something else. |
| Font.Lit | src/natives/ui.rs:99 | Column `col` of a glyph row is lit exactly when the row's bit `4-col` is set, that is when the row divided by `2^(4-col)` is odd. Hence a blank row lights nothing, a full row `0x1F` lights all five columns, and a row below `0x10` leaves column 0 dark. |
| Ui.Index | src/natives/ui.rs:79 | The position `py*width+px` of an on-screen pixel lies inside the buffer. |
| Ui.IndexInjective | src/natives/ui.rs:79 | Distinct pixels have distinct positions. |
| Ui.TextStep | src/natives/ui.rs:95-109 | Drawing character `k` adds exactly its glyph, placed at `x + 6k`, to what the earlier characters light. |
| Ui.TextStaysInBand | src/natives/ui.rs:95-109 | Text lights nothing left of or above its origin, below its seventh row, or beyond `6` columns per character. |
| Ui.Framebuffer.constructor | src/natives/ui.rs:34-36 | A `w*h` buffer filled with one colour. |
| Ui.Framebuffer.Plot | src/natives/ui.rs:78-79 | Sets exactly one pixel, and only when it is on screen. |
| Ui.Framebuffer.Clear | src/natives/ui.rs:62-64 | Every element of the buffer becomes the colour. |
| Ui.Framebuffer.FillRect | src/natives/ui.rs:74-82 | A pixel takes the colour exactly when it lies in the rectangle and on screen. Every other pixel keeps its colour. |
| Ui.Framebuffer.DrawGlyph | src/natives/ui.rs:96-107 | A pixel takes the colour exactly when the glyph's bit `4-col` of row `row` lights it. Every other pixel keeps its colour. |
| Ui.Framebuffer.DrawText | src/natives/ui.rs:92-109 | A pixel takes the colour exactly when its column selects character `(px-x)/6`, its glyph column `(px-x)%6` is below 5, and that bit is lit. Every other pixel keeps its colour. |
| Ui.Ui.constructor | src/natives/ui.rs:17 | No window at start. |
| Ui.Ui.InitWindow | src/natives/ui.rs:33-56 | On success, a fresh `w*h` framebuffer of `0x222222`. A failure keeps the previous window state. |
| Ui.Ui.Clear | src/natives/ui.rs:59-66 | With a window, every pixel becomes the colour cut to `u32`. Without one, nothing changes. |
| Ui.Ui.DrawRect | src/natives/ui.rs:69-84 | With a window, the pixels `FillRect` describes take the colour. Without one, nothing changes. |
| Ui.Ui.DrawText | src/natives/ui.rs:87-111 | With a window, the pixels `DrawText` describes take the colour. Without one, nothing changes. |
| Ui.Ui.Present | src/natives/ui.rs:114-122 | True exactly when a window exists, the frame was shown, the window is open and Escape is not held. |
| Ui.Ui.IsKeyDown | src/natives/ui.rs:125-134 | True exactly when a window exists, the name is known and its key is held. |
| Ui.Ui.GetKeyPressed | src/natives/ui.rs:137-147 | Without a window or without a pressed key, the empty string. Otherwise the name of the first pressed key, which is empty or a known name. |

## Findings

| source | as written | input that shows it | evidently intended | confidence | as-written member | corrected member |
|---|---|---|---|---|---|---|
| src/executor.rs:76-83 | The memory listing treats every binding that is neither `Str` nor `Float` as `Int` or `Bool`. A `Void` binding reaches `unreachable!()` and panics. | `x = {}` (an assignment of an empty block), or `x = if false { 1 }`, both of which bind `x` to `Void` | List the binding through `Void`'s own display, `x = void` | high (not executed) | Report.ReportAsWrittenPanicsOnVoid, Report.VoidBindingPanics | Report.RenderBinding |

## Left out

- Integer overflow: `Int` values and `Counter.count` are unbounded. The `i64` overflow of `+`, `-`, `*` and of `i64::MIN / -1`, and of a counter's `count += 1` (src/natives/registry.rs:229), is not modelled. In the source, `+`, `-`, `*` and `count += 1` panic on overflow in debug builds and wrap in release builds, and `i64::MIN / -1` panics in every build.
- Floating point: `+ - * /` on `f64` and the `{:?}` rendering of floats are parameters (`FloatOps`). Only equality, `<` and the zero test are written out.
- `While` termination: the source's `loop` is unbounded. The model's evaluation carries an iteration budget (fuel), and `None` stands for "did not finish within the budget". `EvaluatorFacts.EvalFuelMonotone` shows that the budget never changes a finished result. Programs that run forever are not distinguished from ones that need more fuel.
- The `Node` type is defined outside the executor, and that file is not part of this model. Only the node kinds `evaluate` matches are modelled.
- Registry handles are returned as unbounded integers. The `usize as i64` of a handle beyond `2^63` and the overflow of the handle counter are not modelled. An entry's `refCount` is unbounded too, so the `usize` overflow of `entry.ref_count += 1` in `registry_retain` (src/natives/registry.rs:181) is not modelled either.
- The window buffer sizes `w * h` are computed without `usize` overflow. Huge or negative dimensions are kept as the wrapped `usize` values, and the allocation they would need is not modelled.
- `Registry.HandleRegistry.FillColor` and the other registry methods hold buffers as sequences inside the table, not as shared arrays. Aliasing between a resource and its native window is not modelled.
- `Registry.HandleRegistry.FileWrite`: a failed `write_all` is modelled as writing nothing. A partial write before the error is not modelled.
- `Registry.HandleRegistry.ElapsedMs` takes the elapsed milliseconds as a parameter. `Instant::now` and the `u128 as i64` cast of the elapsed time are not modelled.
- `fill_poly`, `iso_render` and `registry_voxel_render_frame`: their edge interpolation uses `f32` arithmetic.
- The windowing library (window creation, `update_with_buffer`, `is_open`, key polling), wgpu set-up and file creation are foreign calls. Only their success or failure is a parameter.
- The diagnostic lines written to standard error are modelled as a returned `Diagnostic`, not as text. `registry_dump` also prints a header, one line per entry (its handle, type and reference count, and for a voxel world its sizes) and a `Total Active` line to standard output (src/natives/registry.rs:278-296). None of this output is modelled: `Registry.HandleRegistry.Dump` returns only the count.
- Mutexes, `unsafe impl Send/Sync`, the lazily created global table and the `UnsafeCell` UI state are replaced by single-owner class instances.
- `RegistryModule::handle` forwards to a bridge module that is not part of this model.
- `src/parser.rs` (bincode loading) and the programs under `src/bin/` are not part of this model.
- `Ui.Ui.DrawRect`, `Ui.Ui.DrawText`: the pixel column `x as usize + dx` is computed without `usize` wrap-around. A negative origin therefore lights nothing. In the source, the addition overflows: it panics in debug builds and wraps to small columns in release builds.
- `Report.ExecutionEngine.Execute` returns the corrected report of the Findings row: a `Void` binding is listed as `void`, where the source's `execute` panics. The as-written report is `Report.ReportTextAsWritten`.
- `Values.FloatLt`: transitivity of IEEE `<` and the order among negative floats are not stated; the lemmas give irreflexivity, asymmetry, falsity with a NaN, and the order across signs and among non-negative floats.
- `Ui.Ui.InitWindow`: the window title and the 30 fps target are not modelled.
