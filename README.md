# fn_name: the enclosing-function-name trim

The `fn_name` crate has two macros that give the name of the function they
are called from. `uninstantiated!()` declares a local `struct Here`.
`instantiated!()` builds a closure that is never called. Each macro asks
`core::any::type_name` for the marker's fully qualified name. It then cuts
`PREFIX` (the module path plus `::`) off the front and `SUFFIX` (`::Here`, or
`::{{closure}}` for the closure) off the back. The two macros share the same
slice expression, `&here[PREFIX.len()..(here.len() - SUFFIX.len())]`. That
slice is what this project models and proves things about.

The model has three modules:

- `RustStr` (rust_str.dfy): `usize` subtraction and `str` range slicing over
  the UTF-8 bytes of a string. Both return an `Outcome` that is either a value
  or a panic with its cause. The subtraction depends on a `Profile`:
  `Checked` (overflow checks on, the debug profile) panics on underflow.
  `Wrapping` (the release profile) wraps modulo 2^64. The slice then panics
  with an out-of-bounds index: the begin index when that is past the end of
  the name, otherwise the wrapped end index. The slice also panics when a cut
  point splits a multi-byte character.
- `FnName` (fn_name.dfy): the `PREFIX`/`SUFFIX` constants, the shared `Trim`,
  the two macros, and their properties: the round trip, dependence on
  lengths only, silent over- and under-trimming, the panic causes, and the
  two documented examples.
- `TypeNames` (type_names.dfy): an assumed rendering of marker names, for
  markers in free functions and in methods of inherent `impl`s. Path segments
  are joined by `::` (`Join`): module path, then enclosing items, then the
  marker. Under this assumption both macros return exactly the enclosing
  path, and each nested scope appears in it. A method of a trait `impl` is
  rendered as `<Type as Trait>::method` instead. There both macros return a
  garbled name (`TypeNames.TraitImplMethodName`).

The `type_name` output and the `module_path!()` expansion are inputs to the
model, not things it computes.

Two consequences of the code:

- A plain function `f` in module `m` gives `"f"`: `PREFIX` removes the whole
  module path (`TypeNames.TopLevelFunctionName`).
- `module_path!()` is never empty (at the crate root it is the crate name),
  and `FnName.TrimRoundTrip` holds for any prefix.

## Model

| member | source | states |
|---|---|---|
| `RustStr.Sub` | src/lib.rs:77 | `here.len() - SUFFIX.len()` on `usize`. It has a value exactly when there is no underflow or arithmetic wraps. The value plus `b` is `a` modulo 2^64, and it is the plain difference when `b <= a`. Otherwise it panics with a subtraction overflow. |
| `RustStr.Slice` | src/lib.rs:77 | `&here[begin..end]` succeeds iff `begin <= end <= len` and both indices are character boundaries. The result has `end - begin` bytes, and byte `i` is `here[begin + i]`. A panic is reported in the library's order: an out-of-bounds index (`begin` before `end`), then a backwards range, then an index that is not a character boundary (`begin` before `end`). |
| `FnName.Prefix` | src/lib.rs:74 | `PREFIX` is the module path followed by `::`. |
| `FnName.Trim` | src/lib.rs:77 | The shared slice returns a value iff `|PREFIX| + |SUFFIX| <= |here|` and both cut points are character boundaries. The value has length `|here| - |PREFIX| - |SUFFIX|`, and `here` is its first `|PREFIX|` bytes, then the value, then its last `|SUFFIX|` bytes. When the lengths fit but there is no value, the panic names the cut point that splits a character. |
| `FnName.Uninstantiated` | src/lib.rs:71-79 | `uninstantiated!` succeeds iff the `Here` name is at least module path + `::` + `::Here` long and both cuts fall on character boundaries. The result is the name without its first `|module path| + 2` bytes and its last 6 bytes. |
| `FnName.Instantiated` | src/lib.rs:102-112 | `instantiated!` succeeds iff the closure name is at least module path + `::` + `::{{closure}}` long and both cuts fall on character boundaries. The result is the name without its first `|module path| + 2` bytes and its last 13 bytes. |
| `FnName.TrimRoundTrip` | src/lib.rs:72-77 | Trimming `prefix ++ middle ++ suffix` by `prefix` and `suffix` returns `middle` under either profile, for well-formed strings `middle` and `suffix`. |
| `FnName.TrimIsPositional` | src/lib.rs:110 | Two prefix/suffix pairs with the same lengths give the same outcome on every name. The contents of `PREFIX` and `SUFFIX` are never compared with the name. |
| `FnName.TrimUnderTrims` | src/lib.rs:108-110 | A `SUFFIX` shorter than the name's real tail `actual` returns `middle` plus the untrimmed front of `actual`. No error is raised unless the cut splits a character of `actual`, and then the panic names that index. |
| `FnName.TrimOverTrims` | src/lib.rs:75-77 | A `SUFFIX` longer than the real tail still returns a value when the name is long enough. That value is `middle` without its last `|SUFFIX| - |actual|` bytes. When that cut splits a multi-byte character of `middle`, the expression instead panics with that index as not a character boundary. |
| `FnName.TrimPanics` | src/lib.rs:110 | When the lengths do not fit, the expression panics. A name shorter than `SUFFIX` gives a subtraction overflow under `Checked`. Under `Wrapping` it gives an out-of-bounds index: `|PREFIX|` when that is past the end of the name, otherwise the wrapped end index. When the subtraction succeeds, the slice panics with out-of-bounds `|PREFIX|` or a backwards range. |
| `FnName.UninstantiatedExample` | src/lib.rs:55-67 | Inside `GenericType<A>::generic_method<B>`, `uninstantiated!` returns `"GenericType<_>::generic_method"` for any module path. |
| `FnName.InstantiatedExample` | src/lib.rs:86-98 | With `A = u8` and `B = bool`, `instantiated!` returns `"GenericType<u8>::generic_method<bool>"` for any module path. |
| `TypeNames.JoinAppend` | src/lib.rs:76 | For `Join`, the assumed `::`-joined rendering: rendering two non-empty paths one after the other puts exactly one `::` between them. |
| `TypeNames.MarkerNameShape` | src/lib.rs:76 | Under the assumed rendering, a marker declared in `enclosing` of module `m` is named `PREFIX(m) ++ path(enclosing) ++ "::" ++ marker`. This is the shape the trim relies on. |
| `TypeNames.Join` | src/lib.rs:76 | The assumed rendering of a one-segment path is that segment alone. |
| `TypeNames.JoinStartsOnBoundary` | src/lib.rs:76 | A rendering of well-formed segments begins on a character boundary, so the cut after `PREFIX` never splits a character. |
| `TypeNames.UninstantiatedRecoversPath` | src/lib.rs:71-79 | Under the `::`-joined rendering, with well-formed segments, `uninstantiated!` returns exactly the joined enclosing path, with every nested scope in it. |
| `TypeNames.InstantiatedRecoversPath` | src/lib.rs:102-112 | Under the `::`-joined rendering, with well-formed segments, `instantiated!` returns exactly the joined enclosing path, with every nested scope in it. |
| `TypeNames.TopLevelFunctionName` | src/lib.rs:72-77 | For a function `f` directly inside a module, both macros return `f` alone. |
| `TypeNames.TraitImplMethodName` | src/lib.rs:74-77 | For a method of `impl Trait for Type`, whose marker name begins `<module::Type as Trait>::`, both macros still remove `|PREFIX|` bytes. The result is `:Type as Trait>::method`, not the method's path. |

## Left out

- How `core::any::type_name` renders names (src/lib.rs:76, 105). The compiler defines this convention and does not keep it stable. Raw names are model inputs. `TypeNames` assumes a `::`-joined rendering, and each segment's generic arguments are already written inside its string. This assumption does not cover methods of trait `impl`s, which the compiler renders as `<Type as Trait>::method`. There both macros return the name without its first `|PREFIX|` bytes, a garbled string (`TypeNames.TraitImplMethodName`).
- `module_path!()` and `concat!` (src/lib.rs:74, 107) are compiler builtins. The module path is an input string.
- Macro expansion and hygiene are left out: the local `struct Here`, the inline `type_name_of_val` helper, and the never-called closure `||{}`. Only the names they produce are modelled.
- Compile-time rejection of an invocation outside a function body is not modelled. It happens in the compiler, not in the expression.
- The `&'static str` lifetime, the auto-deref of `&&str` on line 109, `#![no_std]`, and the fact that the macros are not const-evaluable (src/lib.rs:47-48) are type-system or build facts, not behaviour.
- Full UTF-8 validity of a `str` is not modelled. The model keeps only the consequence the slice depends on: a well-formed string never begins with a continuation byte. Character-boundary panics are modelled.
- `usize` is taken to be 64 bits wide, and every `str` is at most `isize::MAX` bytes long. Other pointer widths are not modelled.
- Determinism has no lemma of its own. `Trim` and both macros are Dafny functions of their arguments only, so equal inputs give equal results by construction.
