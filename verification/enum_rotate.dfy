/** The `EnumRotate` derive (`derive_enum_rotate`, src/lib.rs:44-210) as a chain of pure
    stages: find and parse the `iteration_order` attribute, run the checks in
    the order the source runs them, each of which ends generation with a
    diagnostic, then resolve the order and build the rotation tables.

    A syntax item is modelled by the parts the derive looks at: the type's name,
    its outer attributes (path segments and, for a list attribute, the tokens
    between its parentheses) and its data (the variants of an enum, or the fact
    that it is a struct or a union).
 */
module EnumRotate {
  import opened Wrappers
  import opened Seqs
  import opened IterationOrder
  import opened Rotation

  /** The fields of a variant: `A`, `A(..)` or `A { .. }`. */
  datatype Fields = Unit | Unnamed(count: nat) | Named(fieldNames: seq<string>)

  datatype Variant = Variant(ident: Name, fields: Fields)

  datatype Data = Enum(variants: seq<Variant>) | Struct | Union

  /** What follows an attribute's path: a parenthesised token list as in
      `#[iteration_order(A, B)]`, or anything else (nothing, `= value`, or
      brackets or braces instead of parentheses). */
  datatype AttrArgs = Parenthesized(tokens: seq<Token>) | NotParenthesized

  datatype Attribute = Attribute(path: seq<string>, args: AttrArgs)

  datatype DeriveInput = DeriveInput(ident: Name, attrs: seq<Attribute>, data: Data)

  /** Why no implementation is generated. Positions index `attrs`. */
  datatype DeriveError =
    | MalformedOrder(parseError: ParseError)
    | UnparsableOrder
    | DuplicateOrder(at: nat)
    | NotAnEnum(item: string, typeName: Name)
    | LengthMismatch(typeName: Name, expected: nat, got: nat)
    | InvalidVariant(typeName: Name, invalid: Name)
    | VariantNotCovered(typeName: Name, missing: Name)
    | NotUnitVariant(variant: Name)

  /** The attribute filter: a one-segment path `iteration_order`. */
  predicate IsOrderAttribute(a: Attribute) {
    |a.path| == 1 && a.path[0] == "iteration_order"
  }

  /** The position of the first `iteration_order` attribute, the one whose list
      is used. */
  function OrderAttribute(attrs: seq<Attribute>): (r: Option<nat>)
    ensures r.Some? ==> r.value < |attrs| && IsOrderAttribute(attrs[r.value])
    ensures r.Some? ==> forall j :: 0 <= j < r.value ==> !IsOrderAttribute(attrs[j])
    ensures r.None? <==> forall j :: 0 <= j < |attrs| ==> !IsOrderAttribute(attrs[j])
  {
    FindFirst(attrs, IsOrderAttribute)
  }

  /** The position of the second `iteration_order` attribute, if there is one:
      the filter iterator advanced once more. */
  function RepeatedOrderAttribute(attrs: seq<Attribute>): (r: Option<nat>)
    ensures r.Some? ==> r.value < |attrs| && IsOrderAttribute(attrs[r.value])
    ensures r.Some? ==> var first := OrderAttribute(attrs);
      && first.Some? && first.value < r.value
      && forall j :: first.value < j < r.value ==> !IsOrderAttribute(attrs[j])
    ensures r.None? <==>
      forall i, j :: 0 <= i < j < |attrs| && IsOrderAttribute(attrs[i]) ==> !IsOrderAttribute(attrs[j])
  {
    match OrderAttribute(attrs)
    case None => None
    case Some(i) =>
      var rest := attrs[i + 1..];
      assert forall j :: 0 <= j < |rest| ==> rest[j] == attrs[i + 1 + j];
      match FindFirst(rest, IsOrderAttribute)
      case None =>
        assert forall j :: i < j < |attrs| ==> !IsOrderAttribute(attrs[j]) by {
          forall j | i < j < |attrs| ensures !IsOrderAttribute(attrs[j]) {
            assert attrs[j] == rest[j - i - 1];
          }
        }
        None
      case Some(j) =>
        assert IsOrderAttribute(attrs[i]) && IsOrderAttribute(attrs[i + 1 + j]);
        Some(i + 1 + j)
  }

  /** Parses one `iteration_order` attribute. A list that breaks the grammar is
      reported with the offending token; an attribute without a parenthesised
      list makes the parser's `.expect` panic, which ends generation too. */
  function ParseOrderAttribute(a: Attribute): (r: Result<seq<Name>, DeriveError>)
    ensures r.Success? <==> a.args.Parenthesized? && Parse(a.args.tokens).Success?
    ensures r.Success? ==> r.value == Parse(a.args.tokens).value
    ensures r.Failure? ==> (r.error.UnparsableOrder? <==> a.args.NotParenthesized?)
    ensures r.Failure? && a.args.Parenthesized? ==> r.error == MalformedOrder(Parse(a.args.tokens).error)
  {
    match a.args
    case NotParenthesized => Failure(UnparsableOrder)
    case Parenthesized(toks) =>
      match Parse(toks)
      case Success(names) => Success(names)
      case Failure(e) => Failure(MalformedOrder(e))
  }

  /** Parses the first `iteration_order` attribute, if any (src/lib.rs:49-55). */
  function CustomOrder(attrs: seq<Attribute>): (r: Result<Option<seq<Name>>, DeriveError>)
    ensures OrderAttribute(attrs).None? ==> r == Success(None)
    ensures OrderAttribute(attrs).Some? ==>
      var parsed := ParseOrderAttribute(attrs[OrderAttribute(attrs).value]);
      && (r.Success? <==> parsed.Success?)
      && (r.Success? ==> r.value == Some(parsed.value))
      && (r.Failure? ==> r.error == parsed.error)
  {
    match OrderAttribute(attrs)
    case None => Success(None)
    case Some(i) =>
      var names :- ParseOrderAttribute(attrs[i]);
      Success(Some(names))
  }

  /** At most one `iteration_order` attribute (src/lib.rs:57-63). */
  function CheckSingleOrder(attrs: seq<Attribute>): (r: Outcome<DeriveError>)
    ensures r.Pass? <==>
      forall i, j :: 0 <= i < j < |attrs| && IsOrderAttribute(attrs[i]) ==> !IsOrderAttribute(attrs[j])
    ensures r.Fail? ==> r.error.DuplicateOrder? && r.error.at < |attrs| && IsOrderAttribute(attrs[r.error.at])
    ensures r.Fail? ==> var first := OrderAttribute(attrs);
      && first.Some? && first.value < r.error.at
      && forall j :: first.value < j < r.error.at ==> !IsOrderAttribute(attrs[j])
  {
    match RepeatedOrderAttribute(attrs)
    case None => Pass
    case Some(j) => Fail(DuplicateOrder(j))
  }

  /** The variants of an enum; structs and unions are rejected (src/lib.rs:65-77). */
  function EnumVariants(input: DeriveInput): (r: Result<seq<Variant>, DeriveError>)
    ensures r.Success? <==> input.data.Enum?
    ensures r.Success? ==> r.value == input.data.variants
    ensures r.Failure? ==>
      r.error == NotAnEnum(if input.data.Struct? then "Struct" else "Union", input.ident)
  {
    match input.data
    case Enum(variants) => Success(variants)
    case Struct => Failure(NotAnEnum("Struct", input.ident))
    case Union => Failure(NotAnEnum("Union", input.ident))
  }

  /** The declared variant names, in declaration order. */
  function VariantNames(variants: seq<Variant>): (names: seq<Name>)
    ensures |names| == |variants|
    ensures forall i :: 0 <= i < |variants| ==> names[i] == variants[i].ident
  {
    if |variants| == 0 then [] else [variants[0].ident] + VariantNames(variants[1..])
  }

  /** Rust rejects an enum that declares a variant name twice. */
  predicate UniqueVariantNames(variants: seq<Variant>) {
    NoDuplicates(VariantNames(variants))
  }

  /** The three checks of a custom order against the declared names, in source
      order: the length (src/lib.rs:83-93), then the first listed name that is
      not a variant (src/lib.rs:95-108), then the first variant that is not
      listed (src/lib.rs:110-122). */
  function ValidateOrder(typeName: Name, names: seq<Name>, order: seq<Name>): (r: Outcome<DeriveError>)
    ensures r.Pass? <==>
      && |order| == |names|
      && (forall x :: x in order ==> x in names)
      && (forall x :: x in names ==> x in order)
    ensures r.Fail? && r.error.LengthMismatch? <==> |order| != |names|
    ensures r.Fail? && r.error.LengthMismatch? ==> r.error == LengthMismatch(typeName, |names|, |order|)
    ensures r.Fail? && r.error.InvalidVariant? <==>
      |order| == |names| && exists x :: x in order && x !in names
    ensures r.Fail? ==>
      r.error.LengthMismatch? || r.error.InvalidVariant? || r.error.VariantNotCovered?
  {
    if |order| != |names| then Fail(LengthMismatch(typeName, |names|, |order|))
    else
      match FindFirst(order, x => x !in names)
      case Some(i) => Fail(InvalidVariant(typeName, order[i]))
      case None =>
        match FindFirst(names, x => x !in order)
        case Some(i) => Fail(VariantNotCovered(typeName, names[i]))
        case None => Pass
  }

  /** The name a failed order check reports: the first listed name that is not
      a variant, or else the first variant that is not listed. */
  lemma ValidateOrderReports(typeName: Name, names: seq<Name>, order: seq<Name>)
    requires ValidateOrder(typeName, names, order).Fail?
    ensures var e := ValidateOrder(typeName, names, order).error;
      && e.typeName == typeName
      && (e.InvalidVariant? ==>
            exists i :: 0 <= i < |order| && order[i] == e.invalid && order[i] !in names
              && forall k :: 0 <= k < i ==> order[k] in names)
      && (e.VariantNotCovered? ==>
            exists i :: 0 <= i < |names| && names[i] == e.missing && names[i] !in order
              && forall k :: 0 <= k < i ==> names[k] in order)
  {
  }

  /** Every variant is a unit variant; the first that is not is reported
      (src/lib.rs:125-134). */
  function CheckUnitVariants(variants: seq<Variant>): (r: Outcome<DeriveError>)
    ensures r.Pass? <==> forall i :: 0 <= i < |variants| ==> variants[i].fields.Unit?
    ensures r.Fail? ==> exists i ::
      && 0 <= i < |variants|
      && r.error == NotUnitVariant(variants[i].ident)
      && !variants[i].fields.Unit?
      && (forall k :: 0 <= k < i ==> variants[k].fields.Unit?)
  {
    match FindFirst(variants, (v: Variant) => !v.fields.Unit?)
    case None => Pass
    case Some(i) => Fail(NotUnitVariant(variants[i].ident))
  }

  /** The order the tables follow: the attribute's list if there is one, the
      declaration order otherwise (src/lib.rs:169-171). */
  function Resolve(custom: Option<seq<Name>>, variants: seq<Variant>): (order: seq<Name>)
    ensures custom.Some? ==> order == custom.value
    ensures custom.None? ==> order == VariantNames(variants)
    ensures custom.None? ==> |order| == |variants| && forall i :: 0 <= i < |variants| ==> order[i] == variants[i].ident
  {
    match custom
    case Some(order) => order
    case None => VariantNames(variants)
  }

  /** The checks of the derive, in the order the source performs them. */
  datatype Check = OrderSyntax | SingleOrder | IsEnum | OrderMatches | UnitVariants

  /** The position of a check in source order. */
  function Rank(c: Check): nat {
    match c
    case OrderSyntax => 0
    case SingleOrder => 1
    case IsEnum => 2
    case OrderMatches => 3
    case UnitVariants => 4
  }

  /** The check that reports `e`. */
  function CheckOf(e: DeriveError): Check {
    match e
    case MalformedOrder(_) => OrderSyntax
    case UnparsableOrder => OrderSyntax
    case DuplicateOrder(_) => SingleOrder
    case NotAnEnum(_, _) => IsEnum
    case LengthMismatch(_, _, _) => OrderMatches
    case InvalidVariant(_, _) => OrderMatches
    case VariantNotCovered(_, _) => OrderMatches
    case NotUnitVariant(_) => UnitVariants
  }

  /** Whether check `c` on its own rejects `input`, regardless of the others. */
  predicate Fails(input: DeriveInput, c: Check) {
    var first := OrderAttribute(input.attrs);
    match c
    case OrderSyntax =>
      first.Some? && ParseOrderAttribute(input.attrs[first.value]).Failure?
    case SingleOrder =>
      exists i, j :: 0 <= i < j < |input.attrs| && IsOrderAttribute(input.attrs[i]) && IsOrderAttribute(input.attrs[j])
    case IsEnum =>
      !input.data.Enum?
    case OrderMatches =>
      && input.data.Enum?
      && first.Some?
      && ParseOrderAttribute(input.attrs[first.value]).Success?
      && var order := ParseOrderAttribute(input.attrs[first.value]).value;
         ValidateOrder(input.ident, VariantNames(input.data.variants), order).Fail?
    case UnitVariants =>
      input.data.Enum? && exists v :: v in input.data.variants && !v.fields.Unit?
  }

  /** The stage of `Derive` that runs check `c` rejects `input`, given that
      the stages before it passed. */
  predicate StageFails(input: DeriveInput, c: Check) {
    match c
    case OrderSyntax => CustomOrder(input.attrs).Failure?
    case SingleOrder => CheckSingleOrder(input.attrs).Fail?
    case IsEnum => EnumVariants(input).Failure?
    case OrderMatches =>
      && input.data.Enum?
      && CustomOrder(input.attrs).Success?
      && CustomOrder(input.attrs).value.Some?
      && ValidateOrder(input.ident, VariantNames(input.data.variants), CustomOrder(input.attrs).value.value).Fail?
    case UnitVariants =>
      input.data.Enum? && CheckUnitVariants(input.data.variants).Fail?
  }

  /** The stage of `Derive` that runs check `c` rejects `input` with the
      diagnostic `e`. */
  predicate StageReports(input: DeriveInput, c: Check, e: DeriveError) {
    match c
    case OrderSyntax => CustomOrder(input.attrs) == Failure(e)
    case SingleOrder => CheckSingleOrder(input.attrs) == Fail(e)
    case IsEnum => EnumVariants(input) == Failure(e)
    case OrderMatches =>
      && input.data.Enum?
      && CustomOrder(input.attrs).Success?
      && CustomOrder(input.attrs).value.Some?
      && ValidateOrder(input.ident, VariantNames(input.data.variants), CustomOrder(input.attrs).value.value) == Fail(e)
    case UnitVariants =>
      input.data.Enum? && CheckUnitVariants(input.data.variants) == Fail(e)
  }

  /** Each check's stand-alone condition is what its stage tests. */
  lemma StageFailsIff(input: DeriveInput, c: Check)
    ensures Fails(input, c) <==> StageFails(input, c)
  {
    match c
    case SingleOrder =>
      if CheckSingleOrder(input.attrs).Fail? {
        var i, j :| 0 <= i < j < |input.attrs| && IsOrderAttribute(input.attrs[i]) && IsOrderAttribute(input.attrs[j]);
      }
    case UnitVariants =>
      if input.data.Enum? {
        var vs := input.data.variants;
        if CheckUnitVariants(vs).Fail? {
          var i :| 0 <= i < |vs| && !vs[i].fields.Unit?;
          assert vs[i] in vs;
        } else {
          forall v | v in vs
            ensures v.fields.Unit?
          {
            var i :| 0 <= i < |vs| && vs[i] == v;
          }
        }
      }
    case _ =>
  }

  /** Every stage before `c` lets the input through. */
  predicate PassesBefore(input: DeriveInput, c: Check) {
    && (c != OrderSyntax ==> !StageFails(input, OrderSyntax))
    && (c != OrderSyntax && c != SingleOrder ==> !StageFails(input, SingleOrder))
    && (c == OrderMatches || c == UnitVariants ==> !StageFails(input, IsEnum))
    && (c == UnitVariants ==> !StageFails(input, OrderMatches))
  }

  /** The first stage of the derive to reject the input is the first check
      that rejects it on its own. */
  lemma FirstFailureAt(input: DeriveInput, c: Check)
    requires PassesBefore(input, c) && StageFails(input, c)
    ensures Fails(input, c)
    ensures forall c' :: Rank(c') < Rank(c) ==> !Fails(input, c')
  {
    StageFailsIff(input, c);
    forall c' | Rank(c') < Rank(c)
      ensures !Fails(input, c')
    {
      StageFailsIff(input, c');
    }
  }

  /** No check rejects an input that every stage lets through. */
  lemma NoFailureAtEnd(input: DeriveInput)
    requires PassesBefore(input, UnitVariants) && !StageFails(input, UnitVariants)
    ensures forall c :: !Fails(input, c)
  {
    forall c
      ensures !Fails(input, c)
    {
      StageFailsIff(input, c);
    }
  }

  /** The failure promises of `Derive` leave no choice of diagnostic: two
      errors that both come from the first rejecting check and are both what
      its stage reports are the same error. */
  lemma FailureDetermined(input: DeriveInput, e1: DeriveError, e2: DeriveError)
    requires Fails(input, CheckOf(e1)) && Fails(input, CheckOf(e2))
    requires forall c :: Rank(c) < Rank(CheckOf(e1)) ==> !Fails(input, c)
    requires forall c :: Rank(c) < Rank(CheckOf(e2)) ==> !Fails(input, c)
    requires StageReports(input, CheckOf(e1), e1) && StageReports(input, CheckOf(e2), e2)
    ensures e1 == e2
  {
    assert Rank(CheckOf(e1)) == Rank(CheckOf(e2));
  }

  /** What the derive promises for `input` when it returns `r`: the contract
      of `Derive`, collected so that its stages can pass it on. */
  predicate DerivePromises(input: DeriveInput, r: Result<Impl, DeriveError>) {
    && (r.Failure? ==> Fails(input, CheckOf(r.error)))
    && (r.Failure? ==> forall c :: Rank(c) < Rank(CheckOf(r.error)) ==> !Fails(input, c))
    && (r.Failure? ==> StageReports(input, CheckOf(r.error), r.error))
    && (r.Success? ==> forall c :: !Fails(input, c))
    && (r.Success? ==> input.data.Enum?)
    && (r.Success? && OrderAttribute(input.attrs).None? ==>
          Iter(r.value) == VariantNames(input.data.variants))
    && (r.Success? && OrderAttribute(input.attrs).Some? ==>
          var a := input.attrs[OrderAttribute(input.attrs).value];
          a.args.Parenthesized? && Parse(a.args.tokens) == Success(Iter(r.value)))
    && (r.Success? && input.data.Enum? && UniqueVariantNames(input.data.variants) ==>
          Valid(r.value) && IsPermutation(Iter(r.value), VariantNames(input.data.variants)))
    && (r.Success? ==> (r.value.EmptyImpl? <==> input.data.Enum? && |input.data.variants| == 0))
  }

  /** A stage that rejects the input, after every earlier stage passed, may
      end the derive with the error it reports. */
  lemma FailureReported(input: DeriveInput, e: DeriveError)
    requires PassesBefore(input, CheckOf(e)) && StageReports(input, CheckOf(e), e)
    ensures DerivePromises(input, Failure(e))
  {
    FirstFailureAt(input, CheckOf(e));
  }

  /** The whole derive. The checks run in source order, each only once every
      earlier one has passed, so the derive fails exactly when some check
      rejects the input, with the diagnostic of the first such check. On
      success the tables follow the attribute's list if there is one and the
      declaration order otherwise; for unique variant names they are valid
      tables over a permutation of the variants, and empty exactly for an enum
      without variants. */
  method Derive(input: DeriveInput) returns (r: Result<Impl, DeriveError>)
    ensures r.Failure? ==> Fails(input, CheckOf(r.error))
    ensures r.Failure? ==> forall c :: Rank(c) < Rank(CheckOf(r.error)) ==> !Fails(input, c)
    ensures r.Failure? ==> StageReports(input, CheckOf(r.error), r.error)
    ensures r.Success? ==> forall c :: !Fails(input, c)
    ensures r.Success? ==> input.data.Enum?
    ensures r.Success? && OrderAttribute(input.attrs).None? ==>
      Iter(r.value) == VariantNames(input.data.variants)
    ensures r.Success? && OrderAttribute(input.attrs).Some? ==>
      var a := input.attrs[OrderAttribute(input.attrs).value];
      a.args.Parenthesized? && Parse(a.args.tokens) == Success(Iter(r.value))
    ensures r.Success? && input.data.Enum? && UniqueVariantNames(input.data.variants) ==>
      Valid(r.value) && IsPermutation(Iter(r.value), VariantNames(input.data.variants))
    ensures r.Success? ==> (r.value.EmptyImpl? <==> input.data.Enum? && |input.data.variants| == 0)
  {
    var custom := CustomOrder(input.attrs);
    if custom.Failure? {
      FirstFailureAt(input, OrderSyntax);
      return Failure(custom.error);
    }
    var single := CheckSingleOrder(input.attrs);
    if single.Fail? {
      FirstFailureAt(input, SingleOrder);
      return Failure(single.error);
    }
    var shape := EnumVariants(input);
    if shape.Failure? {
      FirstFailureAt(input, IsEnum);
      return Failure(shape.error);
    }
    r := DeriveForEnum(input, custom.value, shape.value);
  }

  /** The derive once the attribute has been read and the type is known to be
      an enum with `variants` (src/lib.rs:79-207): the order checks, the
      unit-variant check, then the tables. */
  method DeriveForEnum(input: DeriveInput, custom: Option<seq<Name>>, variants: seq<Variant>)
    returns (r: Result<Impl, DeriveError>)
    requires CustomOrder(input.attrs) == Success(custom)
    requires CheckSingleOrder(input.attrs).Pass?
    requires EnumVariants(input) == Success(variants)
    ensures DerivePromises(input, r)
  {
    if custom.Some? {
      var checked := ValidateOrder(input.ident, VariantNames(variants), custom.value);
      if checked.Fail? {
        FailureReported(input, checked.error);
        return Failure(checked.error);
      }
    }
    r := DeriveChecked(input, custom, variants);
  }

  /** The derive once the custom order, if any, has passed its checks
      (src/lib.rs:125-207): the unit-variant check, then the tables. */
  method DeriveChecked(input: DeriveInput, custom: Option<seq<Name>>, variants: seq<Variant>)
    returns (r: Result<Impl, DeriveError>)
    requires CustomOrder(input.attrs) == Success(custom)
    requires CheckSingleOrder(input.attrs).Pass?
    requires EnumVariants(input) == Success(variants)
    requires custom.Some? ==> ValidateOrder(input.ident, VariantNames(variants), custom.value).Pass?
    ensures DerivePromises(input, r)
  {
    var units := CheckUnitVariants(variants);
    if units.Fail? {
      FailureReported(input, units.error);
      return Failure(units.error);
    }
    NoFailureAtEnd(input);
    var impl := Synthesize(Resolve(custom, variants));
    GeneratedTables(input, custom, variants);
    return Success(impl);
  }

  /** The tables generated once every check has passed: they follow the
      attribute's list if there is one and the declaration order otherwise;
      for unique variant names they are valid tables over a permutation of the
      variants, and empty exactly for an enum without variants. */
  lemma GeneratedTables(input: DeriveInput, custom: Option<seq<Name>>, variants: seq<Variant>)
    requires CustomOrder(input.attrs) == Success(custom)
    requires EnumVariants(input) == Success(variants)
    requires custom.Some? ==> ValidateOrder(input.ident, VariantNames(variants), custom.value).Pass?
    ensures var impl := Synthesize(Resolve(custom, variants));
      && (OrderAttribute(input.attrs).None? ==> Iter(impl) == VariantNames(variants))
      && (OrderAttribute(input.attrs).Some? ==>
            var a := input.attrs[OrderAttribute(input.attrs).value];
            a.args.Parenthesized? && Parse(a.args.tokens) == Success(Iter(impl)))
      && (UniqueVariantNames(variants) ==> Valid(impl) && IsPermutation(Iter(impl), VariantNames(variants)))
      && (impl.EmptyImpl? <==> |variants| == 0)
  {
    if custom.Some? && UniqueVariantNames(variants) {
      ValidateOrderPermutation(input.ident, VariantNames(variants), custom.value);
    }
  }

  /** Under unique variant names, no check fails exactly when there is at
      most one `iteration_order` attribute, the type is an enum of unit
      variants, and the attribute, if present, lists a permutation of the
      variants. */
  lemma NoFailureIff(input: DeriveInput)
    requires input.data.Enum? ==> UniqueVariantNames(input.data.variants)
    ensures (forall c :: !Fails(input, c)) <==>
      && input.data.Enum?
      && (forall i, j :: 0 <= i < j < |input.attrs| && IsOrderAttribute(input.attrs[i]) ==> !IsOrderAttribute(input.attrs[j]))
      && (forall v :: v in input.data.variants ==> v.fields.Unit?)
      && match OrderAttribute(input.attrs)
         case None => true
         case Some(i) =>
           && input.attrs[i].args.Parenthesized?
           && Parse(input.attrs[i].args.tokens).Success?
           && IsPermutation(Parse(input.attrs[i].args.tokens).value, VariantNames(input.data.variants))
  {
    var first := OrderAttribute(input.attrs);
    if input.data.Enum? && first.Some? && ParseOrderAttribute(input.attrs[first.value]).Success? {
      var order := ParseOrderAttribute(input.attrs[first.value]).value;
      ValidateOrderPermutation(input.ident, VariantNames(input.data.variants), order);
    }
    assert (forall c :: !Fails(input, c)) <==>
      && !Fails(input, OrderSyntax) && !Fails(input, SingleOrder) && !Fails(input, IsEnum)
      && !Fails(input, OrderMatches) && !Fails(input, UnitVariants);
  }

  /** The three order checks pass exactly for a permutation of the declared
      names, which then has no duplicates either. */
  lemma ValidateOrderPermutation(typeName: Name, names: seq<Name>, order: seq<Name>)
    requires NoDuplicates(names)
    ensures ValidateOrder(typeName, names, order).Pass? <==> IsPermutation(order, names)
    ensures ValidateOrder(typeName, names, order).Pass? ==> NoDuplicates(order)
  {
    if ValidateOrder(typeName, names, order).Pass? {
      ChecksGivePermutation(order, names);
    }
    if IsPermutation(order, names) {
      PermutationPassesChecks(order, names);
    }
  }

  /** An enum without variants passes every check when it carries at most one
      `iteration_order` attribute and that attribute, if present, lists no
      names, as `#[iteration_order()]` does: the order checks compare zero
      names with zero variants. */
  lemma EmptyEnumPasses(name: Name, attrs: seq<Attribute>)
    requires forall i, j :: 0 <= i < j < |attrs| && IsOrderAttribute(attrs[i]) ==> !IsOrderAttribute(attrs[j])
    requires OrderAttribute(attrs).Some? ==> ParseOrderAttribute(attrs[OrderAttribute(attrs).value]) == Success([])
    ensures forall c :: !Fails(DeriveInput(name, attrs, Enum([])), c)
  {
    var input := DeriveInput(name, attrs, Enum([]));
    forall c
      ensures !Fails(input, c)
    {
      StageFailsIff(input, c);
    }
  }
}
