/**
 * The points calculator: seven independent rules over the fields of a receipt,
 * summed. Each rule is a function of the field it reads; `Points` is their sum
 * and `CalculatePoints` computes it the way the handler does, accumulating
 * into a running total with a loop over the items.
 */
module Points {
  import opened Wrappers
  import opened Digits
  import opened Text
  import opened Amounts
  import opened Timestamps
  import opened Receipts

  /** Rule 1: one point per ASCII letter or digit in the retailer name. */
  function RetailerPoints(retailer: string): (r: nat)
    ensures r <= |retailer|
  {
    |StripNonAlnum(retailer)|
  }

  /** Rule 2: 50 points when the total is a round dollar amount. */
  function RoundDollarPoints(total: string): (r: nat)
    ensures r == 0 || r == 50
  {
    if IsWhole(AmountOrZero(total)) then 50 else 0
  }

  /** Rule 3: 25 points when the total is a multiple of 0.25. */
  function QuarterPoints(total: string): (r: nat)
    ensures r == 0 || r == 25
  {
    if IsQuarterMultiple(AmountOrZero(total)) then 25 else 0
  }

  /** Rule 4: 5 points for every two items. */
  function PairPoints(items: seq<Item>): (r: nat)
    ensures r % 5 == 0
    ensures 2 * (r / 5) <= |items| <= 2 * (r / 5) + 1
  {
    |items| / 2 * 5
  }

  /** Rule 5, one item: a fifth of the price, rounded up, when the trimmed description's byte length is a multiple of 3. */
  function ItemPoints(item: Item): (r: int)
    ensures r != 0 ==> ByteLen(TrimSpace(item.shortDescription)) % 3 == 0
    ensures AmountOrZero(item.price).units >= 0 ==> r >= 0
  {
    if ByteLen(TrimSpace(item.shortDescription)) % 3 == 0 then
      var price := AmountOrZero(item.price);
      if price.units >= 0 then CeilFifthNonNegative(price); CeilFifth(price) else CeilFifth(price)
    else 0
  }

  /** No item price reads as a negative amount. */
  predicate NoNegativePrice(items: seq<Item>) {
    forall i :: 0 <= i < |items| ==> AmountOrZero(items[i].price).units >= 0
  }

  /** Rule 5 over all items; with no negative price it adds nothing negative. */
  function ItemsPoints(items: seq<Item>): (r: int)
    ensures NoNegativePrice(items) ==> r >= 0
  {
    if items == [] then 0 else ItemsPoints(items[..|items| - 1]) + ItemPoints(items[|items| - 1])
  }

  /** Rule 6: 6 points when the day of the purchase date is odd. */
  function OddDayPoints(purchaseDate: string): (r: nat)
    ensures r == 0 || r == 6
  {
    if DayOf(purchaseDate) % 2 != 0 then 6 else 0
  }

  /** Rule 7: 10 points when the purchase hour is 14 or 15. */
  function AfternoonPoints(purchaseTime: string): (r: nat)
    ensures r == 0 || r == 10
  {
    var hour := HourOf(purchaseTime);
    if hour >= 14 && hour < 16 then 10 else 0
  }

  /** The score of a receipt: the seven rule contributions added up. */
  function Points(r: Receipt): (score: int)
    ensures NoNegativePrice(r.items) ==> score >= 0
  {
    RetailerPoints(r.retailer) + RoundDollarPoints(r.total) + QuarterPoints(r.total)
    + PairPoints(r.items) + ItemsPoints(r.items)
    + OddDayPoints(r.purchaseDate) + AfternoonPoints(r.purchaseTime)
  }

  /** The calculator as the handler runs it: one running total, one rule after another. */
  method CalculatePoints(receipt: Receipt) returns (points: int)
    ensures points == Points(receipt)
  {
    points := 0;

    points := points + |StripNonAlnum(receipt.retailer)|;

    var total := AmountOrZero(receipt.total);
    if IsWhole(total) {
      points := points + 50;
    }
    if IsQuarterMultiple(total) {
      points := points + 25;
    }

    points := points + |receipt.items| / 2 * 5;

    var items := receipt.items;
    var i := 0;
    while i < |items|
      invariant 0 <= i <= |items|
      invariant points == RetailerPoints(receipt.retailer) + RoundDollarPoints(receipt.total)
                          + QuarterPoints(receipt.total) + PairPoints(items) + ItemsPoints(items[..i])
    {
      var item := items[i];
      var trimmed := TrimSpace(item.shortDescription);
      if ByteLen(trimmed) % 3 == 0 {
        var price := AmountOrZero(item.price);
        points := points + CeilFifth(price);
      }
      assert items[..i + 1][..i] == items[..i];
      i := i + 1;
    }
    assert items[..i] == items;

    var day := DayOf(receipt.purchaseDate);
    if day % 2 != 0 {
      points := points + 6;
    }

    var hour := HourOf(receipt.purchaseTime);
    if hour >= 14 && hour < 16 {
      points := points + 10;
    }
  }

  /** Rule 1 counts the positions of the retailer name that hold an ASCII letter or digit. */
  lemma RetailerPointsCountsAlnum(retailer: string)
    ensures RetailerPoints(retailer) == |AlnumPositions(retailer)|
  {
    StripNonAlnumCounts(retailer);
  }

  /** Rule 2 pays exactly when the total read as a number has no fractional part; an unparsable total reads as 0. */
  lemma RoundDollarRule(total: string)
    ensures var v := Value(AmountOrZero(total));
            RoundDollarPoints(total) == if v == v.Floor as real then 50 else 0
  {
    IsWholeMeaning(AmountOrZero(total));
  }

  /** Rule 3 pays exactly when four times the total has no fractional part, i.e. the total is a whole number of quarters. */
  lemma QuarterRule(total: string)
    ensures var v := Value(AmountOrZero(total));
            QuarterPoints(total) == if 4.0 * v == (4.0 * v).Floor as real then 25 else 0
  {
    IsQuarterMultipleMeaning(AmountOrZero(total));
  }

  /** A round total earns both rule 2 and rule 3, 75 points in all. */
  lemma RoundTotalEarnsBoth(total: string)
    requires RoundDollarPoints(total) == 50
    ensures QuarterPoints(total) == 25
  {
    WholeIsQuarterMultiple(AmountOrZero(total));
  }

  /** A total that does not parse counts as 0, which is round. */
  lemma UnparsableTotalEarnsBoth(total: string)
    requires ParseAmount(total).None?
    ensures RoundDollarPoints(total) + QuarterPoints(total) == 75
  {
  }

  /**
   * Rule 5 for one item: nothing unless the trimmed description's byte length
   * is a multiple of 3, and then the least integer not below a fifth of the price
   * (an unparsable price counts as 0).
   */
  lemma ItemRule(item: Item)
    ensures ByteLen(TrimSpace(item.shortDescription)) % 3 != 0 ==> ItemPoints(item) == 0
    ensures ByteLen(TrimSpace(item.shortDescription)) % 3 == 0 ==>
              (ItemPoints(item) - 1) as real < Value(AmountOrZero(item.price)) / 5.0 <= ItemPoints(item) as real
  {
    CeilFifthMeaning(AmountOrZero(item.price));
  }

  /** An ASCII description padded with spaces is measured by its trimmed character count. */
  lemma PaddedAsciiLength(a: string, core: string, b: string)
    requires AllSpace(a) && AllSpace(b) && Trimmed(core)
    requires forall i :: 0 <= i < |core| ==> core[i] as int < 0x80
    ensures ByteLen(TrimSpace(a + core + b)) == |core|
  {
    TrimSpaceOfPadded(a, core, b);
    ByteLenAscii(core);
  }

  /** For an ASCII description, rule 5 looks only at its character count once trimmed. */
  lemma AsciiItemPoints(a: string, core: string, b: string, price: string)
    requires AllSpace(a) && AllSpace(b) && Trimmed(core)
    requires forall i :: 0 <= i < |core| ==> core[i] as int < 0x80
    ensures ItemPoints(Item(a + core + b, price)) == if |core| % 3 == 0 then CeilFifth(AmountOrZero(price)) else 0
  {
    PaddedAsciiLength(a, core, b);
  }

  /** Rule 4 grows by 5 with each further pair of items, whatever they hold. */
  lemma PairPointsAddPair(items: seq<Item>, first: Item, second: Item)
    ensures PairPoints(items + [first, second]) == PairPoints(items) + 5
  {
    assert |items + [first, second]| / 2 == |items| / 2 + 1;
  }

  /** Rule 5 adds up item by item, so it is the same over any split of the item list. */
  lemma {:induction false} ItemsPointsAppend(a: seq<Item>, b: seq<Item>)
    ensures ItemsPoints(a + b) == ItemsPoints(a) + ItemsPoints(b)
    decreases |b|
  {
    if b == [] {
      assert a + b == a;
    } else {
      var b' := b[..|b| - 1];
      assert (a + b)[..|a + b| - 1] == a + b';
      assert (a + b)[|a + b| - 1] == b[|b| - 1];
      ItemsPointsAppend(a, b');
    }
  }

  /** Rule 6 on a date that parses: 6 points exactly when its day is odd. */
  lemma OddDayRule(d: Date)
    requires ValidDate(d)
    ensures OddDayPoints(FormatDate(d)) == if d.day % 2 == 1 then 6 else 0
  {
    DateRoundTrip(d);
  }

  /** A date that does not parse reads as Go's zero date, whose day 1 is odd. */
  lemma UnparsableDateEarns6(purchaseDate: string)
    requires ParseDate(purchaseDate).None?
    ensures OddDayPoints(purchaseDate) == 6
  {
  }

  /** Rule 7 on a time that parses, with or without a padded hour: 10 points exactly for hours 14 and 15. */
  lemma AfternoonRule(c: Clock)
    requires ValidClock(c)
    ensures AfternoonPoints(FormatClock(c)) == if 14 <= c.hour < 16 then 10 else 0
    ensures AfternoonPoints(FormatClockShort(c)) == if 14 <= c.hour < 16 then 10 else 0
  {
    ClockRoundTrip(c);
  }

  /** A time that does not parse reads as hour 0 and earns nothing. */
  lemma UnparsableTimeEarnsNothing(purchaseTime: string)
    requires ParseClock(purchaseTime).None?
    ensures AfternoonPoints(purchaseTime) == 0
  {
  }
}
