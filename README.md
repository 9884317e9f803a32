# Tracing executor, type wire encoding and compact text normaliser

This project models three pieces of the test support of a federated-computation
framework and proves properties about them.

- **The tracing executor** (`tracing_executor.dfy`, module `Tracing`). It wraps
  a target executor and forwards every `create_value`, `create_call`,
  `create_tuple`, `create_selection` and `compute` call to it. Every call is
  appended to a trace. In the trace, executor values are named by integer
  indexes, handed out 1, 2, 3, … by `_get_new_value_index`.
  - `TracingExecutor` and `TracingValue` are classes. Their methods update the
    counter and the trace in place.
  - The target executor is not modelled. Each operation receives the target's
    answer as a function from the forwarded request to either a value or an
    error.
  - A target error propagates before an index is allocated, so it leaves the
    counter and the trace unchanged.
  - The class invariant `Valid()` states that the indices recorded by the
    trace's creating calls are exactly 1, 2, …, `lastUsedIndex`, in order.
    `AllocatedIndicesAreFresh` derives from it that indices are strictly
    increasing and that the next one has never been used.
- **The type wire encoding** (`types.dfy`, `type_serialization.dfy`). A type is
  one of:
  - a tensor (a dtype and a shape whose dimensions may be undefined);
  - a sequence;
  - a tuple of optionally named elements;
  - a function with an optional parameter.

  `Serialize` writes the protocol message. An undefined dimension is written as
  size `-1`, and an unnamed element as the empty name. `Deserialize` reads the
  message back and fails on a dimension size below `-1`.
  - Both round trips are proved: type → message → type for well-formed types,
    and message → type → message for every message that decodes.
  - The expected encodings in the serialization tests are proved as concrete
    lemmas.
- **`create_dummy_identity_lambda_computation`** (`identity_lambda.dfy`). It
  builds the lambda `(a -> a)` over a type `t`. The lambda is well typed. For a
  type whose tuple element names are non-empty, its type signatures decode to
  `t -> t` and `t`.
- **`_compact_repr`** (`compact_repr.dfy`). It normalises a message's text
  rendering. The steps are:
  1. Newlines become spaces.
  2. `replace('  ', ' ')` is applied while a double space remains.
  3. The result is stripped of surrounding whitespace.

  `CompactText` keeps the source's loop. It is proved equal to `Compact`, which
  collapses every run of spaces to one space and then strips. `Compact`'s
  result has no newline, no double space and no whitespace at either end. It
  keeps every non-whitespace character in order, and it is idempotent. Text
  already in that form comes out unchanged. Two pieces of such text separated
  by any run of spaces and newlines come out separated by exactly one space.

## Model

| member | source | states |
|---|---|---|
| Tracing.TracingExecutor.constructor | tensorflow_federated/python/core/impl/executors/executor_test_utils.py:151-164 | a new executor has used no index and has an empty trace, and satisfies the index invariant |
| Tracing.TracingExecutor.NewValueIndex | tensorflow_federated/python/core/impl/executors/executor_test_utils.py:170-173 | the index handed out is one more than the last one used, and becomes the last one used |
| Tracing.TracingExecutor.Record | tensorflow_federated/python/core/impl/executors/executor_test_utils.py:180-182 | appending the entry of a call that has just taken the next index restores the index invariant; the trace gains exactly that entry |
| Tracing.TracingExecutor.CreateValue | tensorflow_federated/python/core/impl/executors/executor_test_utils.py:175-183 | on a target error: the error is returned and the counter and trace are unchanged. Otherwise: a fresh value owned by this executor wraps the target's value under the next index. The trace gains exactly one entry, which records the type spec only when one was given. The index invariant is kept |
| Tracing.TracingExecutor.CreateCall | tensorflow_federated/python/core/impl/executors/executor_test_utils.py:185-198 | the target gets the function's value and the argument's value when there is an argument. The trace gains `(fn index, arg index, new index)` or `(fn index, new index)`. The new value gets the next index, and a target error changes nothing. The index invariant is kept |
| Tracing.TracingExecutor.CreateTuple | tensorflow_federated/python/core/impl/executors/executor_test_utils.py:200-209 | the target gets the elements' target values and the trace gets their indices, names and order kept. The new value gets the next index, and a target error changes nothing. The index invariant is kept |
| Tracing.TracingExecutor.Close | tensorflow_federated/python/core/impl/executors/executor_test_utils.py:211-212 | closing leaves the counter and the trace as they were |
| Tracing.TracingExecutor.CreateSelection | tensorflow_federated/python/core/impl/executors/executor_test_utils.py:214-222 | the target gets the source value, index and name. The trace records the source index and the new index, and records the selection index when one was given, otherwise the name (possibly absent). A target error changes nothing. The index invariant is kept |
| Tracing.TracingValue.constructor | tensorflow_federated/python/core/impl/executors/executor_test_utils.py:228-241 | a value keeps its owner, its index and the target value it wraps |
| Tracing.TracingValue.Compute | tensorflow_federated/python/core/impl/executors/executor_test_utils.py:255-258 | the result is the target's answer. A successful result is appended to the owner's trace under the value's index, allocating no index, and the owner's invariant is kept. On error, nothing is appended |
| Tracing.Indices | tensorflow_federated/python/core/impl/executors/executor_test_utils.py:154-156 | the indices handed out by n calls are exactly 1..n in order |
| Tracing.AllocatedAppend | tensorflow_federated/python/core/impl/executors/executor_test_utils.py:177-182 | appending a creating entry extends the allocated indices by its index, and appending a compute entry leaves them as they were |
| Tracing.AllocatedIndicesAreFresh | tensorflow_federated/python/core/impl/executors/executor_test_utils.py:154-156 | under the invariant, trace indices are strictly increasing and are exactly 1..n, and the next index n+1 has never been used |
| Tracing.TargetValues | tensorflow_federated/python/core/impl/executors/executor_test_utils.py:201-202 | the tuple forwarded to the target has the same length, names and order, with each element's target value |
| Tracing.TraceIndices | tensorflow_federated/python/core/impl/executors/executor_test_utils.py:205-208 | the tuple recorded in the trace has the same length, names and order, with each element's index |
| Tracing.TraceOfCall | tensorflow_federated/python/core/impl/executors/executor_test_utils.py:154-156 | on a fresh executor, two values, a call of the first on the second and its computation leave the trace `[(f,1), (x,2), (1,2,3), compute(3,result)]` with 3 indices used |
| IdentityLambda.UnaryOp | tensorflow_federated/python/core/impl/executors/executor_test_utils.py:274-275 | the function type `t -> t` is well formed exactly when `t` is |
| IdentityLambda.DummyIdentityLambda | tensorflow_federated/python/core/impl/executors/executor_test_utils.py:261-284 | the result is a lambda whose body references its own parameter `a`. It is well typed in the empty environment. For a well-formed `t`, its type decodes to `t -> t` and its body's type decodes to `t` |
| TypeSerialization.EncodeDim | tensorflow_federated/python/core/impl/serialization_test.py:36-46 | a known dimension is written as its size and an undefined one as -1, so a written size is at least -1; reading the size back gives the dimension |
| TypeSerialization.EncodeShape | tensorflow_federated/python/core/impl/serialization_test.py:36-46 | one size per dimension, in order: the known size, or -1 for an undefined one |
| TypeSerialization.DecodeDim | tensorflow_federated/python/core/impl/serialization_test.py:83-87 | -1 reads back as an undefined dimension and a size n >= 0 as a known size n; anything below -1 is an error |
| TypeSerialization.DecodeShape | tensorflow_federated/python/core/impl/serialization_test.py:83-87 | a shape reads back size by size, in order, with as many dimensions as sizes; it succeeds when every size does |
| TypeSerialization.EncodeName | tensorflow_federated/python/core/impl/serialization_test.py:58-62 | the written name is empty exactly for an unnamed element or one named `""` |
| TypeSerialization.DecodeName | tensorflow_federated/python/core/impl/serialization_test.py:95-99 | a name read back is never empty, and writing it again gives the same wire string |
| TypeSerialization.Serialize | tensorflow_federated/python/core/impl/serialization_test.py:112-115 | `serialize_type` writes only messages that can be read back: every size in them is at least -1 |
| TypeSerialization.Deserialize | tensorflow_federated/python/core/impl/serialization_test.py:115-117 | `deserialize_type` only ever reads back well-formed types, whose tuple element names are non-empty |
| TypeSerialization.DeserializeElements | tensorflow_federated/python/core/impl/serialization_test.py:95-99 | tuple elements read back one for one, and are all well formed |
| TypeSerialization.DeserializeElement | tensorflow_federated/python/core/impl/serialization_test.py:95-99 | an element reads back with the name its wire name decodes to, and is well formed |
| TypeSerialization.SerializeElements | tensorflow_federated/python/core/impl/serialization_test.py:54-72 | tuple elements are written one for one, in order |
| TypeSerialization.SerializeElement | tensorflow_federated/python/core/impl/serialization_test.py:54-62 | an element's written name reads back as the element's name, except that a name `""` reads back as no name; the written type is readable |
| TypeSerialization.ShapeRoundTrip | tensorflow_federated/python/core/impl/serialization_test.py:83-87 | decoding an encoded shape gives the shape back, including undefined dimensions |
| TypeSerialization.ShapeWireRoundTrip | tensorflow_federated/python/core/impl/serialization_test.py:83-87 | a written shape decodes exactly when every size is at least -1, and re-encoding it gives the same sizes |
| TypeSerialization.RoundTrip | tensorflow_federated/python/core/impl/serialization_test.py:106-117 | deserializing a serialized well-formed type gives the type back |
| TypeSerialization.ElementsRoundTrip | tensorflow_federated/python/core/impl/serialization_test.py:106-117 | deserializing serialized well-formed tuple elements gives the elements back |
| TypeSerialization.ElementRoundTrip | tensorflow_federated/python/core/impl/serialization_test.py:106-117 | deserializing a serialized well-formed element gives it back, name included |
| TypeSerialization.Reserialize | tensorflow_federated/python/core/impl/serialization_test.py:112-118 | for a well-formed type: serialize, deserialize, serialize yields the same type and the same message |
| TypeSerialization.WireRoundTrip | tensorflow_federated/python/core/impl/serialization_test.py:112-118 | a message decodes exactly when all its sizes are at least -1. The decoded type is then well formed, and it serializes back to the same message |
| TypeSerialization.WireElementsRoundTrip | tensorflow_federated/python/core/impl/serialization_test.py:112-118 | the tuple-element half of the message round trip: elements decode exactly when valid, and re-serialize to themselves |
| TypeSerialization.TupleEncoding | tensorflow_federated/python/core/impl/serialization_test.py:54-72 | a tuple is written as a tuple message with one element per element, in order. A non-empty name is written exactly for the named elements |
| TypeSerialization.WellFormedAt | tensorflow_federated/python/core/impl/serialization_test.py:54-72 | each element of well-formed tuple elements is well formed |
| TypeSerialization.EmptyNameIsDropped | tensorflow_federated/python/core/impl/serialization_test.py:58-62 | an element named with the empty string is written like an unnamed one and reads back unnamed |
| TypeSerialization.TensorVectors | tensorflow_federated/python/core/impl/serialization_test.py:31-46 | `int32` is written with no dimensions, `int32[10,20]` with sizes 10 and 20, and `int32[?]` with size -1 |
| TypeSerialization.SequenceVector | tensorflow_federated/python/core/impl/serialization_test.py:48-52 | a sequence of strings is written as a sequence of a string scalar |
| TypeSerialization.TupleVector | tensorflow_federated/python/core/impl/serialization_test.py:54-62 | `<x=int32, y=string, float32, z=bool>` is written as four elements, the third with an empty name |
| TypeSerialization.NestedTupleVector | tensorflow_federated/python/core/impl/serialization_test.py:64-72 | `<x=<y=<z=bool>>>` is written as three nested single-element tuples |
| TypeSerialization.FunctionVector | tensorflow_federated/python/core/impl/serialization_test.py:74-81 | `(<int32,int32> -> bool)` is written with a parameter holding a tuple of two unnamed `int32` scalars and a `bool` result |
| TypeSerialization.NoParameterFunctionRoundTrip | tensorflow_federated/python/core/impl/serialization_test.py:101-104 | `( -> bool)` is written with the parameter field unset, and reads back as a function without a parameter. No expected message pins this wire form down; leaving the field unset is the model's choice |
| CompactRepr.NonBlank | tensorflow_federated/python/core/impl/serialization_test.py:173-179 | the characters kept from a string contain no whitespace |
| CompactRepr.IsSpace | tensorflow_federated/python/core/impl/serialization_test.py:179 | the whitespace characters that `str.strip()` removes: the characters for which `str.isspace` holds |
| CompactRepr.HasDoubleSpace | tensorflow_federated/python/core/impl/serialization_test.py:177 | the loop condition `'  ' in s`; `DoubleSpaceAt` states its meaning |
| CompactRepr.ReplaceNewlines | tensorflow_federated/python/core/impl/serialization_test.py:176 | the result has the same length and no newline, and every newline became a space while every other character stayed |
| CompactRepr.ReplaceDoubleSpaces | tensorflow_federated/python/core/impl/serialization_test.py:178 | one `replace('  ', ' ')` pass never lengthens the text, and shortens it while a double space remains, so the loop terminates |
| CompactRepr.Squeeze | tensorflow_federated/python/core/impl/serialization_test.py:177-178 | collapsing runs of spaces leaves no double space, keeps the non-whitespace characters in order, and leaves text without a double space unchanged |
| CompactRepr.SqueezeAppend | tensorflow_federated/python/core/impl/serialization_test.py:177-178 | a prefix without a double space that does not end in a space passes through the collapse unchanged |
| CompactRepr.SqueezeSpaces | tensorflow_federated/python/core/impl/serialization_test.py:177-178 | after a kept space, a further run of spaces is dropped |
| CompactRepr.SqueezeSeparated | tensorflow_federated/python/core/impl/serialization_test.py:177-178 | a non-empty run of spaces between two pieces of normal text collapses to exactly one space |
| CompactRepr.NewlinesOfSeparated | tensorflow_federated/python/core/impl/serialization_test.py:176 | around a run of spaces and newlines, newline-free text stays as it is, and the run becomes spaces only |
| CompactRepr.SqueezeFrom | tensorflow_federated/python/core/impl/serialization_test.py:177-178 | the collapse, scanning left to right; `SqueezeIsCollapse` states its properties |
| CompactRepr.SqueezeIsCollapse | tensorflow_federated/python/core/impl/serialization_test.py:177-178 | collapsing runs of spaces leaves no double space, adds no character and no length, and keeps the non-whitespace characters in order |
| CompactRepr.SqueezeAfterReplace | tensorflow_federated/python/core/impl/serialization_test.py:177-178 | one replace pass does not change the collapsed text (the loop's invariant) |
| CompactRepr.SqueezeWithoutPairs | tensorflow_federated/python/core/impl/serialization_test.py:177-178 | text with no double space is its own collapse, so the loop's exit state is the collapse |
| CompactRepr.DoubleSpaceAt | tensorflow_federated/python/core/impl/serialization_test.py:177 | `'  ' in s` holds exactly when some position holds a space followed by a space |
| CompactRepr.DoubleSpaceInSlice | tensorflow_federated/python/core/impl/serialization_test.py:177 | a slice of a text without a double space has none either |
| CompactRepr.StripLeading | tensorflow_federated/python/core/impl/serialization_test.py:179 | the result is a suffix of the input, only whitespace was removed, and it does not start with whitespace |
| CompactRepr.StripTrailing | tensorflow_federated/python/core/impl/serialization_test.py:179 | the result is a prefix of the input, only whitespace was removed, and it does not end with whitespace |
| CompactRepr.Strip | tensorflow_federated/python/core/impl/serialization_test.py:179 | the result is a contiguous slice of the input, everything before and after it is whitespace, and it has no whitespace at either end |
| CompactRepr.StripKeepsNormal | tensorflow_federated/python/core/impl/serialization_test.py:179 | stripping text without newlines or double spaces introduces neither |
| CompactRepr.SliceKeepsNormal | tensorflow_federated/python/core/impl/serialization_test.py:177-179 | a slice of text without newlines or double spaces has neither |
| CompactRepr.StripTrimmed | tensorflow_federated/python/core/impl/serialization_test.py:179 | stripping text without surrounding whitespace changes nothing |
| CompactRepr.StripKeepsText | tensorflow_federated/python/core/impl/serialization_test.py:179 | stripping keeps every non-whitespace character in order |
| CompactRepr.NonBlankAppend | tensorflow_federated/python/core/impl/serialization_test.py:173-179 | the non-whitespace characters of a concatenation are those of its parts, in order |
| CompactRepr.NonBlankOfBlanks | tensorflow_federated/python/core/impl/serialization_test.py:179 | an all-whitespace text has no non-whitespace character |
| CompactRepr.NonBlankOfNewlines | tensorflow_federated/python/core/impl/serialization_test.py:176 | replacing newlines by spaces keeps the non-whitespace characters |
| CompactRepr.Compact | tensorflow_federated/python/core/impl/serialization_test.py:173-179 | newline replacement, then collapse, then strip, as one function. `CompactIsNormal`, `CompactKeepsText`, `CompactIdempotent`, `CompactFixesNormal` and `CompactSeparator` state its properties |
| CompactRepr.CompactText | tensorflow_federated/python/core/impl/serialization_test.py:166-179 | the loop computes the collapse-and-strip of the newline-free text, which has no newline, no double space and no surrounding whitespace |
| CompactRepr.CompactIsNormal | tensorflow_federated/python/core/impl/serialization_test.py:173-179 | the normalised text has no newline, no two adjacent spaces at any position, and no whitespace at either end |
| CompactRepr.CompactKeepsText | tensorflow_federated/python/core/impl/serialization_test.py:173-179 | normalising keeps every non-whitespace character of the text, in order |
| CompactRepr.CompactIdempotent | tensorflow_federated/python/core/impl/serialization_test.py:176-179 | normalising an already normalised text changes nothing |
| CompactRepr.CompactFixesNormal | tensorflow_federated/python/core/impl/serialization_test.py:173-179 | text with no newline, no double space and no surrounding whitespace comes out unchanged |
| CompactRepr.CompactSeparator | tensorflow_federated/python/core/impl/serialization_test.py:173-179 | newlines become spaces and multiple spaces become one: two non-empty pieces of normal text separated by any non-empty run of spaces and newlines come out as the first piece, one space, and the second piece |

## Left out

- The test decorator `executors`, `install_executor` and `AsyncTestCase` (executor_test_utils.py:40-145) are not modelled. They install execution contexts and drive an event loop.
- `create_dummy_empty_tensorflow_computation` (executor_test_utils.py:287-308) is not modelled. It builds a TensorFlow graph.
- The `serialize_py_func_as_tf_computation` tests (serialization_test.py:122-163) are not modelled. They trace Python functions into TensorFlow graphs and run them.
- The `is_assignable_from` checks (serialization_test.py:119-120) are not modelled. For the types here, the round trip gives back an equal type, which is assignable both ways.
- The text rendering of a protocol message (`repr`) is not modelled. `CompactText` takes the rendered text as its input.
- The dtype-to-enum mapping is not modelled. `DType` lists only the five dtypes the tests use. Tensor shapes of unknown rank are left out, because the tests have none.
- `TracingExecutorValue.type_signature` (executor_test_utils.py:251-253) is not modelled. It only forwards to the target value.
- The target executor's behaviour is not modelled. Each call takes the target's answer as a parameter instead.
- The type check of the constructor's argument (executor_test_utils.py:161) is not modelled.
- The type checks in `TracingExecutorValue.__init__` (executor_test_utils.py:236-238) are not modelled. In the source, the new index is taken (lines 177, 188, 195, 203, 217) before these checks run. A target answer that is not an executor value therefore raises after the counter has moved, and no entry is appended. The trace's indices then skip a number. The model's target answers are always values, so `Valid()` (indices exactly 1..n) does not cover that case.
- `close` forwarding to the target is not modelled.
- Asynchrony is not modelled: each `await` is a single step. Calls interleaving on one executor are not modelled.
- Tracing.TracingExecutor.CreateTuple: handles a flat tuple of named values. `map_structure` over nested anonymous tuples is not modelled.
- TypeSerialization.RoundTrip: requires tuple element names to be non-empty (`WellFormed`). On the wire, the empty name means "no name", so an element named `""` reads back unnamed (`EmptyNameIsDropped`).
- The tracing executor here does not track closing. After `close`, it neither rejects calls nor raises a closed-executor error. It also does not check that a value belongs to it before use. The model follows the code, so these behaviours, which general executors are described as having, are absent too.
