# derive-enum-rotate in Dafny

A model of the `EnumRotate` derive macro. The macro reads an enum declaration and an optional
`#[iteration_order(A, B, C)]` attribute. It generates `next`, `prev`, `iter` and `iter_from`,
which walk the variants in a cycle. Each module of the model follows one part of
`src/lib.rs`:

- `IterationOrder` is the parser for the attribute's list (`IterationOrder::parse`).
  - The parenthesised content is a sequence of abstract tokens: identifier, comma, or anything else.
  - The result is the list of names, or the first misplaced token ("Expected identifier" / "Expected comma").
- `EnumRotate` is the front end of `derive_enum_rotate`.
  - It first finds the first `iteration_order` attribute and parses it.
  - It then runs the checks in the order the source runs them: the duplicate attribute, the
    struct or union item, the three order checks (length, foreign name, missing variant), and
    the unit-variant check.
  - Finally it resolves the order and builds the tables.
  - `Derive` is written as a method whose body calls only the pure stage functions, so each
    return path is proved on its own.
  - `Fails(input, c)` states, declaratively, when check `c` would reject the input on its own.
    `Derive` promises that it fails exactly when some check rejects the input. It then reports
    the first such check in source order, with the very diagnostic that check's stage produces
    (`StageReports`). `FailureDetermined` shows that these promises leave only one possible
    error. When no check rejects the input, `Derive` succeeds.
  - `Scenarios` works one derive out from `Derive`'s contract alone: a list one name short.
- `Rotation` gives the meaning of the generated code.
  - `map_from` is the resolved order.
  - `map_to` is that order rotated left by one.
  - `next` and `prev` are the two match tables.
  - `iter` yields `map_from`.
  - `iter_from(m)` is `map_from` rotated to start at `m`.
  - An empty enum gets the separate implementation whose `iter` is empty.
- `Seqs` and `Wrappers` are shared helpers: first index satisfying a predicate, rotation,
  permutation, duplicate-freedom, `Option`/`Result`.

A variant is identified by its name. Rust rejects an enum that declares a name twice, so the
permutation results assume unique variant names (`UniqueVariantNames`). The derive itself is
total.

An `iteration_order` attribute that has no parenthesised list, such as `#[iteration_order]`,
`#[iteration_order = ..]` or `#[iteration_order[..]]`, passes the attribute filter
(src/lib.rs:49-51). Then `parenthesized!` fails (src/lib.rs:21), and the
`.expect("Failed to parse")` at src/lib.rs:55 panics. The model
reports it as the error `UnparsableOrder`, which ends generation just like the other
diagnostics.

The first attribute is parsed before the duplicate check runs (src/lib.rs:53-58). So a
malformed first attribute is reported even when a second one follows, and the second is never
parsed.

## Model

| member | source | states |
|---|---|---|
| IterationOrder.Parse | src/lib.rs:23-36 | a list is accepted exactly when identifiers stand at even positions and commas at odd ones (so the empty list and one trailing comma are accepted); the result has one name per identifier, in order; a failure points at the first misplaced token and is "Expected identifier" exactly at even positions, "Expected comma" at odd ones |
| IterationOrder.ParseRender | src/lib.rs:23-36 | every comma-separated list of identifiers, with or without one trailing comma, parses to exactly its identifiers in order |
| IterationOrder.ParseAcceptsOnlyRenderings | src/lib.rs:23-36 | every accepted token list is such a rendering of the names it yields, with a trailing comma exactly when its length is even and non-zero |
| Seqs.FindFirst | src/lib.rs:95-99 | `filter(..).next()`: the first index whose element satisfies the predicate, none exactly when no element does |
| Seqs.IndexOf | src/lib.rs:198-200 | `position(..).unwrap()` on a present element: an index holding it, with no earlier occurrence |
| Seqs.RotateLeft | src/lib.rs:172-176 | `rotate_left(k)`: entry `j` of the result is entry `j + k` of the input, wrapping round past the end |
| Seqs.RotateLeftPermutation | src/lib.rs:172-176 | rotation lists the same elements with the same multiplicities |
| Seqs.RotateLeftNoDuplicates | src/lib.rs:196-203 | rotation keeps a duplicate-free order duplicate-free |
| Seqs.ChecksGivePermutation | src/lib.rs:83-122 | equal length, no foreign name and no missing name, against duplicate-free names, make the order a duplicate-free permutation |
| Seqs.PermutationPassesChecks | src/lib.rs:83-122 | a permutation passes the length check and both membership checks |
| Rotation.Synthesize | src/lib.rs:137-176 | the empty implementation exactly for an empty order; otherwise `iter` is the order and the successor table is the order shifted by one with the first member last; a duplicate-free order gives valid tables |
| Rotation.Iter | src/lib.rs:192-194 | `iter()` yields the order; for valid tables it lists no member twice and is empty exactly for the empty implementation |
| Rotation.Next | src/lib.rs:180-184 | the generated `next` of a member is again a member: the one one place after it in `iter()`, the first after the last |
| Rotation.Prev | src/lib.rs:186-190 | the generated `prev` of a member is again a member: the one one place before it in `iter()`, the last before the first |
| Rotation.IterFrom | src/lib.rs:196-203 | `iter_from(m)` has length n, starts at `m`, has as entry `k` the member `k` places after `m` counting round the cycle, and lists no member twice |
| Rotation.TablesPermutation | src/lib.rs:172-176 | `map_to` lists the same members as `map_from` |
| Rotation.IterFromPermutation | src/lib.rs:196-203 | `iter_from(m)` lists every member exactly as often as `iter()` |
| Rotation.NextAt | src/lib.rs:180-184 | `next` of the member at position `i` is the member at `(i + 1) mod n` |
| Rotation.PrevAt | src/lib.rs:186-190 | `prev` of the member at position `i` is the member at `(i - 1 + n) mod n` |
| Rotation.SingleMember | src/lib.rs:172-190 | for a one-member enum `next` and `prev` both map the member to itself |
| Rotation.PrevNext | src/lib.rs:180-190 | `prev(next(m)) == m` for every member |
| Rotation.NextPrev | src/lib.rs:180-190 | `next(prev(m)) == m` for every member |
| Rotation.NextNAt | src/lib.rs:180-184 | up to one round, `k` steps of `next` from position `i` reach position `(i + k) mod n` |
| Rotation.SingleCycle | src/lib.rs:180-184 | `n` steps of `next` return to the start and the first `n` members reached are pairwise distinct: one n-cycle |
| Rotation.Reaches | src/lib.rs:180-184 | every member is reached from every other in fewer than `n` steps of `next` |
| Rotation.IterFromFollowsNext | src/lib.rs:180-203 | entry `k` of `iter_from(m)` is `next` applied `k` times to `m` |
| EnumRotate.OrderAttribute | src/lib.rs:49-54 | the first attribute whose path is the single segment `iteration_order`, none exactly when there is no such attribute |
| EnumRotate.RepeatedOrderAttribute | src/lib.rs:49-58 | the second such attribute, the next after the first; none exactly when no two attributes are both `iteration_order` |
| EnumRotate.ParseOrderAttribute | src/lib.rs:21-36 | an attribute with a parenthesised list yields the parser's names or its error; one without such a list fails with `UnparsableOrder` |
| EnumRotate.CustomOrder | src/lib.rs:53-55 | no list without an `iteration_order` attribute; otherwise the first such attribute's parse, success or error |
| EnumRotate.CheckSingleOrder | src/lib.rs:57-63 | passes exactly when at most one attribute is `iteration_order`; otherwise reports the position of the second one, the next match after the first |
| EnumRotate.EnumVariants | src/lib.rs:65-77 | the variants of an enum; a struct or a union is rejected with its kind and the type's name |
| EnumRotate.VariantNames | src/lib.rs:169-171 | the declared names in declaration order, one per variant |
| EnumRotate.Resolve | src/lib.rs:169-171 | the attribute's list when there is one; otherwise one name per declared variant, in declaration order |
| EnumRotate.ValidateOrder | src/lib.rs:82-123 | passes exactly for an order of the right length in which every name is a variant and every variant is named; a length mismatch is reported exactly when the lengths differ, carrying both, and a foreign name exactly when the lengths agree and one is listed |
| EnumRotate.ValidateOrderReports | src/lib.rs:95-122 | a foreign name is reported as the first listed name that is not a variant, a missing variant as the first declared one not listed |
| EnumRotate.ValidateOrderPermutation | src/lib.rs:82-123 | for unique variant names the order checks pass exactly for a permutation of the declared names, which is then duplicate-free |
| EnumRotate.CheckUnitVariants | src/lib.rs:125-134 | passes exactly when every variant is a unit variant; otherwise names the first that is not |
| EnumRotate.StageFailsIff | src/lib.rs:46-134 | each check's stand-alone rejection condition is what its stage of the derive tests |
| EnumRotate.FirstFailureAt | src/lib.rs:46-134 | a stage that rejects the input after every earlier stage passed reports a check that rejects it, and no earlier check rejects it |
| EnumRotate.NoFailureAtEnd | src/lib.rs:46-134 | an input every stage lets through is rejected by no check |
| EnumRotate.FailureReported | src/lib.rs:46-134 | ending the derive with the error of the first stage that rejects the input keeps every promise of the derive |
| EnumRotate.FailureDetermined | src/lib.rs:46-134 | the derive's failure promises determine the error: two errors that both meet them are equal |
| EnumRotate.Derive | src/lib.rs:46-207 | fails exactly when some check rejects the input; the error belongs to the first such check in source order and is exactly the diagnostic that check's stage produces (kind, names and lengths); on success the type is an enum, `iter` is the attribute's list if there is one and the declaration order otherwise, the tables are valid over a permutation of unique variants, and the implementation is the empty one exactly for an enum without variants |
| EnumRotate.DeriveForEnum | src/lib.rs:79-207 | the same promises once the attribute is read, no duplicate exists and the item is an enum |
| EnumRotate.DeriveChecked | src/lib.rs:125-207 | the same promises once, in addition, the custom order has passed its checks |
| EnumRotate.GeneratedTables | src/lib.rs:136-176 | after the checks pass the tables follow the attribute's list or the declaration order, are valid over a permutation for unique names, and are empty exactly for no variants |
| EnumRotate.NoFailureIff | src/lib.rs:46-134 | for unique names no check rejects exactly an enum of unit variants with at most one `iteration_order` attribute whose list, if present, parses to a permutation of the variants |
| EnumRotate.EmptyEnumPasses | src/lib.rs:82-155 | an enum without variants passes every check when it has no `iteration_order` attribute or one whose list is empty, so its empty implementation is generated |
| Scenarios.ShortOrder | src/lib.rs:83-93 | `#[iteration_order(A)] enum E { A, B }` fails with the length diagnostic for type `E`, expecting 2 names and given 1 |

## Left out

- The `proc_macro`/`syn`/`quote` plumbing is not modelled. That covers token-stream conversion, `parse_macro_input!` and the emitted tokens. The model keeps the names the tokens carry and the meaning of the generated methods.
- Spans are not modelled. A parser error carries the position of the offending token instead, and a duplicate attribute carries its index.
- Diagnostic text and `note =` lines are not modelled. An error is a kind with the names or lengths it mentions.
- The `assert_eq!` on the attribute name (src/lib.rs:17) is left out. It cannot fail behind the attribute filter, and the model starts after the path.
- `unreachable_unchecked` in the empty implementation (src/lib.rs:141-164) is a precondition. `Next`, `Prev` and `IterFrom` require the argument to be a member, and no value is a member of an empty enum.
- `std::mem::discriminant` (src/lib.rs:198-200) is name equality, which agrees with it for unit variants with distinct names.
- Keywords are classed as "anything else" tokens. `syn`'s identifier parser rejects them, so they raise "Expected identifier" in the model as in the source.
- `A()` and `A {}` are non-unit variants, as in the source (its comment at src/lib.rs:125 marks them as unsupported).
- The runtime `enum_rotate` crate's trait and iterator types are left out. They carry no logic of their own.
- Rotation.NextNAt: stated for at most one round of `k <= n` steps. Longer walks repeat the cycle that `SingleCycle` closes.
