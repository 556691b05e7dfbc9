/** Concrete derives, worked out from `Derive`'s contract alone. */
module Scenarios {
  import opened Wrappers
  import opened IterationOrder
  import opened Rotation
  import opened EnumRotate

  /** `#[iteration_order(A)] enum E { A, B }`: the list is one name short. */
  function ShortOrderInput(): DeriveInput {
    DeriveInput(
      "E",
      [Attribute(["iteration_order"], Parenthesized([Ident("A")]))],
      Enum([Variant("A", Unit), Variant("B", Unit)]))
  }

  /** The derive of `ShortOrderInput` fails with the length diagnostic,
      expecting two names and given one (src/lib.rs:83-93). */
  method ShortOrder() returns (e: DeriveError)
    ensures e == LengthMismatch("E", 2, 1)
  {
    var input := ShortOrderInput();
    assert OrderAttribute(input.attrs) == Some(0);
    assert Parse([Ident("A")]) == Success(["A"]);
    assert VariantNames(input.data.variants) == ["A", "B"];
    assert Fails(input, OrderMatches);
    assert !Fails(input, OrderSyntax) && !Fails(input, IsEnum);
    assert !Fails(input, SingleOrder);
    var r := Derive(input);
    e := r.error;
    assert CheckOf(e) == OrderMatches by {
      assert !(Rank(OrderMatches) < Rank(CheckOf(e)));
    }
  }
}
