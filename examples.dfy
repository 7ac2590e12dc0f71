/**
 * The calculator on concrete receipts: the two receipts documented for the
 * service ("Target", 28 points, and "M&M Corner Market", 109 points), each
 * rule on the values those receipts carry, and the edge cases of the date,
 * time and amount parsers.
 *
 * Concrete strings are passed in as parameters fixed by a precondition
 * (`requires date == "2022-01-01"`): the facts are then derived through the
 * general lemmas rather than by unrolling every function on a literal.
 */
module Examples {
  import opened Wrappers
  import opened Digits
  import opened Text
  import opened Amounts
  import opened Timestamps
  import opened Receipts
  import opened Points

  // ---------------------------------------------------------------- rule 1

  /** "Target" is six letters. */
  lemma TargetRetailerPoints(retailer: string)
    requires retailer == "Target"
    ensures RetailerPoints(retailer) == 6
  {
    StripNonAlnumKeepsAlnum(retailer);
  }

  /** The filter drops the space before a word of letters and digits and keeps the word. */
  lemma StripSpacedWord(w: string)
    requires forall i :: 0 <= i < |w| ==> IsAsciiAlnum(w[i])
    ensures StripNonAlnum(" " + w) == w
  {
    StripNonAlnumKeepsAlnum(w);
    StripNonAlnumAppend(" ", w);
  }

  /** The ampersand between the initials is dropped. */
  lemma StripInitials(initials: string)
    requires initials == "M&M"
    ensures StripNonAlnum(initials) == "MM"
  {
    assert initials == "M" + "&" + "M";
    StripNonAlnumKeepsAlnum("M");
    assert StripNonAlnum("&") == [];
    StripNonAlnumAppend("M", "&");
    StripNonAlnumAppend("M" + "&", "M");
  }

  /** Two space-led words of letters and digits add their own lengths to whatever precedes them. */
  lemma SpacedWordsPoints(a: string, b: string, c: string)
    requires forall i :: 0 <= i < |b| ==> IsAsciiAlnum(b[i])
    requires forall i :: 0 <= i < |c| ==> IsAsciiAlnum(c[i])
    ensures |StripNonAlnum(a + " " + b + " " + c)| == |StripNonAlnum(a)| + |b| + |c|
  {
    StripSpacedWord(b);
    StripSpacedWord(c);
    assert a + " " + b + " " + c == a + (" " + b) + (" " + c);
    StripNonAlnumAppend(a, " " + b);
    StripNonAlnumAppend(a + (" " + b), " " + c);
  }

  /** "M&M Corner Market": the ampersand and the two spaces do not count, the 14 letters do. */
  lemma CornerMarketRetailerPoints(retailer: string)
    requires retailer == "M&M Corner Market"
    ensures RetailerPoints(retailer) == 14
  {
    StripInitials("M&M");
    SpacedWordsPoints("M&M", "Corner", "Market");
    assert "M&M" + " " + "Corner" + " " + "Market" == retailer;
  }

  // ------------------------------------------------------------ rules 2, 3

  /** 35.35 is neither a round amount nor a multiple of 0.25. */
  lemma OddCentsTotal(total: string)
    requires total == "35.35"
    ensures RoundDollarPoints(total) == 0 && QuarterPoints(total) == 0
  {
    ParseDotted("35", "35");
    assert total == "35" + "." + "35";
    assert AmountOrZero(total) == Decimal(3535, 2);
  }

  /** 9.00 is round, so it earns both rules: 75 points. */
  lemma RoundTotal(total: string)
    requires total == "9.00"
    ensures RoundDollarPoints(total) == 50 && QuarterPoints(total) == 25
  {
    ParseDotted("9", "00");
    assert total == "9" + "." + "00";
    assert AmountOrZero(total) == Decimal(900, 2);
  }

  /** 10.25 is a multiple of 0.25 but not round: 25 points. */
  lemma QuarterTotal(total: string)
    requires total == "10.25"
    ensures RoundDollarPoints(total) == 0 && QuarterPoints(total) == 25
  {
    ParseDotted("10", "25");
    assert total == "10" + "." + "25";
    assert AmountOrZero(total) == Decimal(1025, 2);
  }

  // ---------------------------------------------------------------- rule 4

  /** One item earns nothing, four or five items earn 10. */
  lemma PairPointsExamples(items: seq<Item>)
    ensures |items| == 1 ==> PairPoints(items) == 0
    ensures |items| == 4 ==> PairPoints(items) == 10
    ensures |items| == 5 ==> PairPoints(items) == 10
  {
  }

  // ---------------------------------------------------------------- rule 5

  lemma PizzaLength(desc: string)
    requires desc == "Emils Cheese Pizza"
    ensures ByteLen(TrimSpace(desc)) == 18
  {
    PaddedAsciiLength([], desc, []);
    assert [] + desc + [] == desc;
  }

  /** The description of the padded item, without its padding. */
  lemma KlarbrunnCore(core: string)
    requires core == "Klarbrunn 12-PK 12 FL OZ"
    ensures |core| == 24 && Trimmed(core)
    ensures forall i :: 0 <= i < |core| ==> core[i] as int < 0x80
  {
  }

  /** The padded description is the core with three spaces before it and two after. */
  lemma KlarbrunnPadding(desc: string, core: string)
    requires desc == "   Klarbrunn 12-PK 12 FL OZ  " && core == "Klarbrunn 12-PK 12 FL OZ"
    ensures desc == "   " + core + "  "
  {
  }

  lemma KlarbrunnLength(desc: string, core: string)
    requires core == "Klarbrunn 12-PK 12 FL OZ" && desc == "   " + core + "  "
    ensures ByteLen(TrimSpace(desc)) == 24
  {
    KlarbrunnCore(core);
    assert AllSpace("   ") && AllSpace("  ");
    PaddedAsciiLength("   ", core, "  ");
  }

  lemma MountainDewLength(desc: string)
    requires desc == "Mountain Dew 12PK"
    ensures ByteLen(TrimSpace(desc)) == 17
  {
    PaddedAsciiLength([], desc, []);
    assert [] + desc + [] == desc;
  }

  /** The two 20-character descriptions of the Target receipt. */
  lemma TwentyByteLength(desc: string)
    requires desc == "Knorr Creamy Chicken" || desc == "Doritos Nacho Cheese"
    ensures ByteLen(TrimSpace(desc)) == 20
  {
    // One case at a time keeps each literal's length computation separate.
    assert [] + desc + [] == desc;
    if desc == "Knorr Creamy Chicken" {
      assert ByteLen(TrimSpace([] + desc + [])) == 20 by {
        PaddedAsciiLength([], desc, []);
      }
    } else {
      assert ByteLen(TrimSpace([] + desc + [])) == 20 by {
        PaddedAsciiLength([], desc, []);
      }
    }
  }

  lemma GatoradeLength(desc: string)
    requires desc == "Gatorade"
    ensures ByteLen(TrimSpace(desc)) == 8
  {
    PaddedAsciiLength([], desc, []);
    assert [] + desc + [] == desc;
  }

  /** Rule 5 for an item whose trimmed length and amount are known. */
  lemma ItemPointsOf(item: Item, length: nat, amount: Decimal)
    requires ByteLen(TrimSpace(item.shortDescription)) == length
    requires AmountOrZero(item.price) == amount
    ensures ItemPoints(item) == if length % 3 == 0 then CeilFifth(amount) else 0
  {
  }

  lemma AmountOf(price: string, units: int)
    requires price in {"12.25", "12.00"} && units == if price == "12.25" then 1225 else 1200
    ensures AmountOrZero(price) == Decimal(units, 2)
  {
    if price == "12.25" {
      assert ParseAmount(price) == Some(Decimal(1225, 2));
    } else {
      assert ParseAmount(price) == Some(Decimal(1200, 2));
    }
  }

  /** 18 characters at 12.25: a fifth is 2.45, rounded up to 3 points. */
  lemma PizzaItemPoints(item: Item)
    requires item.shortDescription == "Emils Cheese Pizza" && item.price == "12.25"
    ensures ItemPoints(item) == 3
  {
    PizzaLength(item.shortDescription);
    AmountOf(item.price, 1225);
    ItemPointsOf(item, 18, Decimal(1225, 2));
  }

  /** The padding is not counted: 24 characters at 12.00, a fifth is 2.4, rounded up to 3 points. */
  lemma KlarbrunnItemPoints(item: Item)
    requires item.shortDescription == "   Klarbrunn 12-PK 12 FL OZ  " && item.price == "12.00"
    ensures ItemPoints(item) == 3
  {
    var core := "Klarbrunn 12-PK 12 FL OZ";
    KlarbrunnPadding(item.shortDescription, core);
    KlarbrunnLength(item.shortDescription, core);
    AmountOf(item.price, 1200);
    ItemPointsOf(item, 24, Decimal(1200, 2));
  }

  /** Descriptions of 17, 20 and 8 characters earn nothing, whatever the price. */
  lemma MountainDewItemPoints(item: Item)
    requires item.shortDescription == "Mountain Dew 12PK"
    ensures ItemPoints(item) == 0
  {
    MountainDewLength(item.shortDescription);
  }

  lemma TwentyByteItemPoints(item: Item)
    requires item.shortDescription == "Knorr Creamy Chicken" || item.shortDescription == "Doritos Nacho Cheese"
    ensures ItemPoints(item) == 0
  {
    TwentyByteLength(item.shortDescription);
  }

  lemma GatoradeItemPoints(item: Item)
    requires item.shortDescription == "Gatorade"
    ensures ItemPoints(item) == 0
  {
    GatoradeLength(item.shortDescription);
  }

  /** Rule 5 over four items, one at a time. */
  lemma ItemsPointsOfFour(items: seq<Item>)
    requires |items| == 4
    ensures ItemsPoints(items)
         == ItemPoints(items[0]) + ItemPoints(items[1]) + ItemPoints(items[2]) + ItemPoints(items[3])
  {
    var p1, p2, p3 := items[..1], items[..2], items[..3];
    assert ItemsPoints(p1) == ItemPoints(items[0]) by {
      assert p1[..0] == [];
    }
    assert ItemsPoints(p2) == ItemsPoints(p1) + ItemPoints(items[1]) by {
      assert p2[..1] == p1;
    }
    assert ItemsPoints(p3) == ItemsPoints(p2) + ItemPoints(items[2]) by {
      assert p3[..2] == p2;
    }
    assert items[..3] == p3;
  }

  /** Rule 5 over five items, one at a time. */
  lemma ItemsPointsOfFive(items: seq<Item>)
    requires |items| == 5
    ensures ItemsPoints(items)
         == ItemPoints(items[0]) + ItemPoints(items[1]) + ItemPoints(items[2]) + ItemPoints(items[3])
            + ItemPoints(items[4])
  {
    ItemsPointsOfFour(items[..4]);
  }

  // ---------------------------------------------------------------- rule 6

  /** A four-digit field read as its two halves. */
  lemma FourDigits(hi: string, lo: string)
    requires AllDigits(hi) && AllDigits(lo) && |hi| == 2 && |lo| == 2
    ensures AllDigits(hi + lo) && DigitsValue(hi + lo) == DigitsValue(hi) * 100 + DigitsValue(lo)
  {
    DigitsValueAppend(hi, lo);
  }

  /** The two years of the examples, read as numbers. */
  lemma YearValue(year: string)
    requires year == "2022" || year == "2024"
    ensures AllDigits(year) && DigitsValue(year) == if year == "2022" then 2022 else 2024
  {
    if year == "2022" {
      FourDigits("20", "22");
      assert "20" + "22" == year;
    } else {
      FourDigits("20", "24");
      assert "20" + "24" == year;
    }
  }

  /** January 1st is odd: 6 points. */
  lemma FirstOfJanuary(date: string)
    requires date == "2022-01-01"
    ensures ParseDate(date) == Some(Date(2022, 1, 1)) && OddDayPoints(date) == 6
  {
    YearValue("2022");
    DateFromParts("2022", "01", "01");
    assert "2022" + "-" + "01" + "-" + "01" == date;
  }

  /** January 2nd is even: nothing. */
  lemma SecondOfJanuary(date: string)
    requires date == "2022-01-02"
    ensures ParseDate(date) == Some(Date(2022, 1, 2)) && OddDayPoints(date) == 0
  {
    YearValue("2022");
    DateFromParts("2022", "01", "02");
    assert "2022" + "-" + "01" + "-" + "02" == date;
  }

  /** March 20th is even: nothing. */
  lemma TwentiethOfMarch(date: string)
    requires date == "2022-03-20"
    ensures ParseDate(date) == Some(Date(2022, 3, 20)) && OddDayPoints(date) == 0
  {
    YearValue("2022");
    DateFromParts("2022", "03", "20");
    assert "2022" + "-" + "03" + "-" + "20" == date;
  }

  /** There is no February 30th: the date fails to parse, reads as day 1 and earns 6. */
  lemma ThirtiethOfFebruary(date: string)
    requires date == "2022-02-30"
    ensures ParseDate(date) == None && OddDayPoints(date) == 6
  {
    YearValue("2022");
    DateFromParts("2022", "02", "30");
    assert "2022" + "-" + "02" + "-" + "30" == date;
  }

  /** 2024 is a leap year, so February 29th exists. */
  lemma LeapDay(date: string)
    requires date == "2024-02-29"
    ensures ParseDate(date) == Some(Date(2024, 2, 29)) && OddDayPoints(date) == 6
  {
    YearValue("2024");
    DateFromParts("2024", "02", "29");
    assert "2024" + "-" + "02" + "-" + "29" == date;
  }

  /** An unpadded month does not fit the layout: the date reads as day 1 and earns 6. */
  lemma ShortMonth(date: string)
    requires date == "2022-1-02"
    ensures ParseDate(date) == None && OddDayPoints(date) == 6
  {
  }

  // ---------------------------------------------------------------- rule 7

  /** 14:33 is in the afternoon window. */
  lemma HalfPastTwo(time: string)
    requires time == "14:33"
    ensures ParseClock(time) == Some(Clock(14, 33)) && AfternoonPoints(time) == 10
  {
    ClockFromParts("14", "33");
    assert "14" + ":" + "33" == time;
  }

  /** 15:59 is the last minute of the window. */
  lemma OneMinuteToFour(time: string)
    requires time == "15:59"
    ensures ParseClock(time) == Some(Clock(15, 59)) && AfternoonPoints(time) == 10
  {
    ClockFromParts("15", "59");
    assert "15" + ":" + "59" == time;
  }

  /** 16:00 is past the window. */
  lemma FourOClock(time: string)
    requires time == "16:00"
    ensures ParseClock(time) == Some(Clock(16, 0)) && AfternoonPoints(time) == 0
  {
    ClockFromParts("16", "00");
    assert "16" + ":" + "00" == time;
  }

  /** 13:59 is before the window. */
  lemma OneMinuteToTwo(time: string)
    requires time == "13:59"
    ensures ParseClock(time) == Some(Clock(13, 59)) && AfternoonPoints(time) == 0
  {
    ClockFromParts("13", "59");
    assert "13" + ":" + "59" == time;
  }

  /** 13:01, the time of the Target receipt, earns nothing. */
  lemma OnePastOne(time: string)
    requires time == "13:01"
    ensures ParseClock(time) == Some(Clock(13, 1)) && AfternoonPoints(time) == 0
  {
    ClockFromParts("13", "01");
    assert "13" + ":" + "01" == time;
  }

  /** Minute 60 does not exist: the time fails to parse, reads as hour 0 and earns nothing. */
  lemma MinuteSixty(time: string)
    requires time == "14:60"
    ensures ParseClock(time) == None && AfternoonPoints(time) == 0
  {
    ClockFromParts("14", "60");
    assert "14" + ":" + "60" == time;
  }

  /** A single-digit hour is accepted, as the "15:04" layout allows. */
  lemma UnpaddedHour(time: string)
    requires time == "9:05"
    ensures ParseClock(time) == Some(Clock(9, 5)) && AfternoonPoints(time) == 0
  {
    ClockFromParts("9", "05");
    assert "9" + ":" + "05" == time;
  }

  // -------------------------------------------------------- whole receipts

  lemma TargetItemsPoints(items: seq<Item>)
    requires |items| == 5
    requires items[0].shortDescription == "Mountain Dew 12PK"
    requires items[1].shortDescription == "Emils Cheese Pizza" && items[1].price == "12.25"
    requires items[2].shortDescription == "Knorr Creamy Chicken"
    requires items[3].shortDescription == "Doritos Nacho Cheese"
    requires items[4].shortDescription == "   Klarbrunn 12-PK 12 FL OZ  " && items[4].price == "12.00"
    ensures ItemsPoints(items) == 6
  {
    ItemsPointsOfFive(items);
    MountainDewItemPoints(items[0]);
    PizzaItemPoints(items[1]);
    TwentyByteItemPoints(items[2]);
    TwentyByteItemPoints(items[3]);
    KlarbrunnItemPoints(items[4]);
  }

  /**
   * The Target receipt, bought 2022-01-01 at 13:01 for 35.35, scores 28:
   * 6 for the name, 10 for two pairs of items, 3 + 3 for two items, 6 for the odd day.
   */
  lemma TargetReceiptScores28(r: Receipt)
    requires r == Receipt("Target", "2022-01-01", "13:01",
                          [Item("Mountain Dew 12PK", "6.49"), Item("Emils Cheese Pizza", "12.25"),
                           Item("Knorr Creamy Chicken", "1.26"), Item("Doritos Nacho Cheese", "3.35"),
                           Item("   Klarbrunn 12-PK 12 FL OZ  ", "12.00")],
                          "35.35")
    ensures Points.Points(r) == 28
  {
    TargetRetailerPoints(r.retailer);
    OddCentsTotal(r.total);
    TargetItemsPoints(r.items);
    FirstOfJanuary(r.purchaseDate);
    OnePastOne(r.purchaseTime);
  }

  lemma GatoradeItemsPoints(items: seq<Item>)
    requires items == [Item("Gatorade", "2.25"), Item("Gatorade", "2.25"),
                       Item("Gatorade", "2.25"), Item("Gatorade", "2.25")]
    ensures ItemsPoints(items) == 0
  {
    ItemsPointsOfFour(items);
    GatoradeItemPoints(items[0]);
  }

  /**
   * The M&M Corner Market receipt, bought 2022-03-20 at 14:33 for 9.00, scores 109:
   * 14 for the name, 50 + 25 for the round total, 10 for two pairs of items, 10 for the afternoon.
   */
  lemma CornerMarketReceiptScores109(r: Receipt)
    requires r == Receipt("M&M Corner Market", "2022-03-20", "14:33",
                          [Item("Gatorade", "2.25"), Item("Gatorade", "2.25"),
                           Item("Gatorade", "2.25"), Item("Gatorade", "2.25")],
                          "9.00")
    ensures Points.Points(r) == 109
  {
    CornerMarketRetailerPoints(r.retailer);
    RoundTotal(r.total);
    GatoradeItemsPoints(r.items);
    TwentiethOfMarch(r.purchaseDate);
    HalfPastTwo(r.purchaseTime);
  }

  /** An item "abc" at -5.00: three characters, so a fifth of the price, -1, is added. */
  lemma NegativePriceItem(item: Item)
    requires item.shortDescription == "abc" && item.price == "-5.00"
    ensures ItemPoints(item) == -1
  {
    AbcLength(item.shortDescription);
    MinusFive(item.price);
    ItemPointsOf(item, 3, Decimal(-500, 2));
  }

  lemma AbcLength(desc: string)
    requires desc == "abc"
    ensures ByteLen(TrimSpace(desc)) == 3
  {
    PaddedAsciiLength([], desc, []);
    assert [] + desc + [] == desc;
  }

  lemma MinusFive(price: string)
    requires price == "-5.00"
    ensures AmountOrZero(price) == Decimal(-500, 2)
  {
    ParseNegated("5.00");
    ParseDotted("5", "00");
    assert "5" + "." + "00" == "5.00";
    assert "-" + "5.00" == price;
  }

  /** 0.10 is neither round nor a multiple of 0.25. */
  lemma TenCentsTotal(total: string)
    requires total == "0.10"
    ensures RoundDollarPoints(total) == 0 && QuarterPoints(total) == 0
  {
    ParseDotted("0", "10");
    assert total == "0" + "." + "10";
  }

  /** Midnight is outside the afternoon window. */
  lemma Midnight(time: string)
    requires time == "00:00"
    ensures ParseClock(time) == Some(Clock(0, 0)) && AfternoonPoints(time) == 0
  {
    ClockFromParts("00", "00");
    assert "00" + ":" + "00" == time;
  }

  /**
   * Nothing stops a price from being negative, and rule 5 then subtracts:
   * an item "abc" at -5.00 takes a point off a receipt that earns nothing else.
   */
  lemma NegativePriceScoresBelowZero(r: Receipt)
    requires r == Receipt("&", "2022-01-02", "00:00", [Item("abc", "-5.00")], "0.10")
    ensures Points.Points(r) == -1
  {
    assert StripNonAlnum(r.retailer) == [];
    TenCentsTotal(r.total);
    NegativePriceItem(r.items[0]);
    assert r.items[..0] == [];
    SecondOfJanuary(r.purchaseDate);
    Midnight(r.purchaseTime);
  }
}
