/** Products: exact prices, stock, and the field validators of the `products` table. */
module Products {
  import opened SoftDelete

  type ProductId = nat

  const ACTIVE: int := 1
  const INACTIVE: int := 0
  const MAX_NAME_LENGTH: nat := 255
  const MAX_CODE_LENGTH: nat := 50
  /** `max_digits=10, decimal_places=2`: at most eight digits before the point. */
  const PRICE_BOUND: real := 100000000.0

  /** A stored product row. Prices are exact decimals, modelled as rationals. */
  datatype Product = Product(
    name: string, code: string, category: nat, basePrice: real, discountPercent: int,
    stockQuantity: int, active: int, deleteStatus: int)

  /** `final_price`: the base price with the discount percentage taken off. */
  function FinalPrice(p: Product): real {
    p.basePrice * (100 - p.discountPercent) as real / 100.0
  }

  /** `in_stock`. */
  predicate InStock(p: Product) {
    p.stockQuantity > 0
  }

  /** `get_discount_amount`: what the discount takes off the base price. */
  function DiscountAmount(p: Product): (r: real)
    ensures r == p.basePrice * p.discountPercent as real / 100.0
  {
    p.basePrice - FinalPrice(p)
  }

  datatype ProductError =
    | InvalidName | InvalidCode | NegativeBasePrice | BasePriceFormat
    | DiscountOutOfRange | NegativeStock | InvalidActive

  /** The errors the field validators report for a product row. */
  function ProductErrors(p: Product): set<ProductError> {
    (if |p.name| == 0 || |p.name| > MAX_NAME_LENGTH then {InvalidName} else {}) +
    (if |p.code| == 0 || |p.code| > MAX_CODE_LENGTH then {InvalidCode} else {}) +
    (if p.basePrice < 0.0 then {NegativeBasePrice} else {}) +
    (if (p.basePrice * 100.0).Floor as real != p.basePrice * 100.0 || p.basePrice >= PRICE_BOUND
     then {BasePriceFormat} else {}) +
    (if p.discountPercent < 0 || p.discountPercent > 100 then {DiscountOutOfRange} else {}) +
    (if p.stockQuantity < 0 then {NegativeStock} else {}) +
    (if p.active != ACTIVE && p.active != INACTIVE then {InvalidActive} else {})
  }

  /** With a discount in 0..100 and a non-negative base, the final price lies between 0 and
      the base price, and the discount amount is never negative. */
  lemma FinalPriceWithinBase(p: Product)
    requires 0 <= p.discountPercent <= 100 && p.basePrice >= 0.0
    ensures 0.0 <= FinalPrice(p) <= p.basePrice
    ensures 0.0 <= DiscountAmount(p) <= p.basePrice
  {
    var k := (100 - p.discountPercent) as real;
    var d := p.discountPercent as real;
    assert p.basePrice * k + p.basePrice * d == p.basePrice * 100.0;
    assert p.basePrice * k >= 0.0 && p.basePrice * d >= 0.0;
  }

  /** Every product that passes validation has a final price between 0 and its base. */
  lemma ValidProductPrices(p: Product)
    requires ProductErrors(p) == {}
    ensures 0.0 <= FinalPrice(p) <= p.basePrice
    ensures DiscountAmount(p) >= 0.0
  {
    assert DiscountOutOfRange !in ProductErrors(p);
    assert NegativeBasePrice !in ProductErrors(p);
    FinalPriceWithinBase(p);
  }

  lemma FinalPriceExamples(p: Product)
    requires p.basePrice == 100.0
    ensures p.discountPercent == 20 ==> FinalPrice(p) == 80.0
    ensures p.discountPercent == 0 ==> FinalPrice(p) == 100.0
    ensures p.discountPercent == 100 ==> FinalPrice(p) == 0.0
    ensures p.discountPercent == -1 || p.discountPercent == 101 ==> DiscountOutOfRange in ProductErrors(p)
  {
  }
}
