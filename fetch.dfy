/**
 * What the tracker does with a fetched page once the title and price elements
 * have been found: clean the price text, take the first bound of a range and
 * read it as a number.
 */
module Fetch {
  import opened Wrappers
  import opened Text
  import opened Prices

  /** The stripped texts of the title element and of the first price element found. */
  datatype Page = Page(title: string, priceText: string)

  /** A successful fetch: the product's name and its current price. */
  datatype Details = Details(name: string, price: real)

  /** `"to" in s.lower()`: a `t` followed by an `o`, in either case. */
  predicate ContainsTo(s: string)
  {
    exists i :: 0 <= i < |s| - 1 && (s[i] == 't' || s[i] == 'T') && (s[i + 1] == 'o' || s[i + 1] == 'O')
  }

  /** The text reads as a price range ("X to Y" or "X-Y"). */
  predicate IsRange(s: string)
  {
    ContainsTo(s) || '-' in s
  }

  /** `$` and `,` removed, as the first step of normalisation does. */
  function Unformatted(text: string): (u: string)
    ensures '$' !in u && ',' !in u
    ensures forall c :: c != '$' && c != ',' ==> (c in u <==> c in text)
  {
    Remove(Remove(text, '$'), ',')
  }

  /** A range always has a first word: its `t` or `-` is not whitespace. */
  lemma RangeHasFirstWord(s: string)
    requires IsRange(s)
    ensures FirstWord(s).Some?
  {
    if ContainsTo(s) {
      var i :| 0 <= i < |s| - 1 && (s[i] == 't' || s[i] == 'T') && (s[i + 1] == 'o' || s[i + 1] == 'O');
      assert !IsSpace(s[i]);
    } else {
      var i :| 0 <= i < |s| && s[i] == '-';
      assert !IsSpace(s[i]);
    }
  }

  /** The first word of a range with its `-` removed: free of `-`, whitespace and any character not in the range text. */
  lemma RangeBoundClean(u: string)
    requires IsRange(u)
    ensures FirstWord(u).Some?
    ensures var r := Remove(FirstWord(u).value, '-');
      '-' !in r && NoSpace(r) && forall c :: c in r ==> c in u
  {
    RangeHasFirstWord(u);
  }

  /**
   * Normalisation as lines 180-184 write it: no `$` or `,`; for a range, the
   * first word with every `-` removed, so no `-` and no whitespace; otherwise
   * the cleaned text itself.
   */
  function NormalizePriceTextAsWritten(text: string): (r: string)
    ensures '$' !in r && ',' !in r
    ensures IsRange(Unformatted(text)) ==> '-' !in r && NoSpace(r)
    ensures IsRange(Unformatted(text)) ==>
      FirstWord(Unformatted(text)).Some? && r == Remove(FirstWord(Unformatted(text)).value, '-')
    ensures !IsRange(Unformatted(text)) ==> r == Unformatted(text)
  {
    var u := Unformatted(text);
    if IsRange(u) then
      RangeBoundClean(u);
      Remove(FirstWord(u).value, '-')
    else u
  }

  /** "X-Y" with clean bounds is already unformatted, reads as a range and is one word. */
  lemma JoinedRangeIsOneWord(low: string, high: string)
    requires NoSpace(low) && NoSpace(high)
    requires '$' !in low + high && ',' !in low + high
    ensures var s := low + "-" + high; Unformatted(s) == s && IsRange(s) && FirstWord(s) == Some(s)
  {
    var s := low + "-" + high;
    assert Unformatted(s) == s by {
      assert '$' !in s && ',' !in s;
    }
    assert IsRange(s) by {
      assert s[|low|] == '-';
    }
    assert FirstWord(s) == Some(s) by {
      assert NoSpace(s);
      FirstWordOf(s, []);
      assert s + [] == s;
    }
  }

  /** Deleting the dashes of "X-Y" leaves the two bounds run together. */
  lemma RemoveDashJoins(low: string, high: string)
    requires '-' !in low && '-' !in high
    ensures Remove(low + "-" + high, '-') == low + high
  {
    var t := "-" + high;
    assert t[0] == '-' && t[1..] == high;
    assert Remove(t, '-') == high;
    assert low + "-" + high == low + t;
    RemoveAppend(low, t, '-');
  }

  /**
   * A range written without spaces, "X-Y", is read as the two bounds run
   * together: "10-20" becomes "1020".
   */
  lemma AsWrittenJoinsBounds(low: string, high: string)
    requires NoSpace(low) && NoSpace(high)
    requires '$' !in low + high && ',' !in low + high && '-' !in low + high
    ensures NormalizePriceTextAsWritten(low + "-" + high) == low + high
  {
    JoinedRangeIsOneWord(low, high);
    assert '-' !in low && '-' !in high;
    RemoveDashJoins(low, high);
  }

  /**
   * Normalisation as intended: for a range, the first word up to its first
   * `-`, which is the range's lower bound; otherwise the cleaned text itself.
   */
  function NormalizePriceText(text: string): (r: string)
    ensures '$' !in r && ',' !in r
    ensures IsRange(Unformatted(text)) ==> '-' !in r && NoSpace(r)
    ensures IsRange(Unformatted(text)) ==>
      FirstWord(Unformatted(text)).Some? && r == TakeUntil(FirstWord(Unformatted(text)).value, '-')
    ensures !IsRange(Unformatted(text)) ==> r == Unformatted(text)
  {
    var u := Unformatted(text);
    if IsRange(u) then
      RangeBoundClean(u);
      var w := FirstWord(u).value;
      assert forall c :: c in TakeUntil(w, '-') ==> c in w;
      TakeUntil(w, '-')
    else u
  }

  /** Each way of writing a range, "X to Y", "X - Y" or "X-Y", gives its lower bound "X". */
  lemma NormalizeRangeFirstBound(low: string, rest: string)
    requires low != [] && NoSpace(low) && '$' !in low && ',' !in low && '-' !in low
    requires '$' !in rest && ',' !in rest
    requires rest != [] && (rest[0] == '-' || IsSpace(rest[0]))
    requires IsRange(low + rest)
    ensures NormalizePriceText(low + rest) == low
  {
    var s := low + rest;
    assert Unformatted(s) == s;
    if IsSpace(rest[0]) {
      FirstWordOf(low, rest);
      TakeUntilOf(low, [], '-');
      assert low + [] == low;
    } else {
      var t := TakeWord(rest);
      assert t != [] && t[0] == '-';
      assert NoSpace(low + t);
      assert rest == t + rest[|t|..];
      assert s == (low + t) + rest[|t|..];
      FirstWordOf(low + t, rest[|t|..]);
      TakeUntilOf(low, t, '-');
    }
  }

  /** The two readings differ only when the first word of a range holds a `-`. */
  lemma NormalizeAgreesWithoutInnerDash(text: string)
    requires FirstWord(Unformatted(text)).Some? ==> '-' !in FirstWord(Unformatted(text)).value
    ensures NormalizePriceText(text) == NormalizePriceTextAsWritten(text)
  {
    var u := Unformatted(text);
    if IsRange(u) {
      RangeHasFirstWord(u);
      var w := FirstWord(u).value;
      assert NormalizePriceText(text) == TakeUntil(w, '-');
      assert NormalizePriceTextAsWritten(text) == Remove(w, '-');
      assert TakeUntil(w, '-') == w by {
        TakeUntilOf(w, [], '-');
        assert w + [] == w;
      }
    }
  }

  /**
   * `fetch_product_details` after the page has been retrieved: `None` when the
   * fetch or the element lookup failed (no page) or the price does not parse.
   * The price text is normalised as lines 180-184 write it.
   */
  function FetchProductDetails(pages: map<string, Page>, url: string): (r: Option<Details>)
    ensures url !in pages ==> r.None?
    ensures r.Some? ==> url in pages && r.value.name == pages[url].title
  {
    if url !in pages then None
    else
      var page := pages[url];
      match ParsePrice(NormalizePriceTextAsWritten(page.priceText))
      case None => None
      case Some(price) => Some(Details(page.title, price))
  }

  /** A dollar sign in front of text free of `$` and `,` is all that unformatting removes. */
  lemma UnformattedDollar(body: string)
    requires '$' !in body && ',' !in body
    ensures Unformatted("$" + body) == body
  {
    var t := "$" + body;
    assert t[0] == '$' && t[1..] == body;
    assert Remove(t, '$') == body;
  }

  /** Text made only of digits and points is not a range, so either normalisation keeps it. */
  lemma NumberTextIsKept(text: string, body: string)
    requires Unformatted(text) == body
    requires forall c :: c in body ==> IsDigit(c) || c == '.'
    ensures NormalizePriceTextAsWritten(text) == body && NormalizePriceText(text) == body
  {
    assert !ContainsTo(body) by {
      forall i | 0 <= i < |body| ensures body[i] != 't' && body[i] != 'T' {
        assert body[i] in body;
      }
    }
    assert '-' !in body;
  }

  /**
   * A page showing a plain price such as "$12.34" is read as that price: the
   * text written for a non-negative price, behind a dollar sign, parses back
   * to the price rounded to cents.
   */
  lemma FetchPlainPrice(pages: map<string, Page>, url: string, x: real)
    requires url in pages && 0.0 <= x
    requires pages[url].priceText == "$" + FormatCents(x)
    ensures FetchProductDetails(pages, url) == Some(Details(pages[url].title, RoundCents(x)))
  {
    var body := FormatCents(x);
    assert body == CentsText(Cents(x));
    CentsTextChars(Cents(x));
    UnformattedDollar(body);
    NumberTextIsKept(pages[url].priceText, body);
    ParseFormatCents(x);
  }

  /**
   * A page whose price reads "X-Y", bounds without spaces, is fetched as if its
   * price were "XY": "10-20" gives 1020.0.
   */
  lemma FetchJoinedRange(pages: map<string, Page>, url: string, low: string, high: string)
    requires url in pages && pages[url].priceText == low + "-" + high
    requires NoSpace(low) && NoSpace(high)
    requires '$' !in low + high && ',' !in low + high && '-' !in low + high
    ensures FetchProductDetails(pages, url) ==
      match ParsePrice(low + high)
      case None => None
      case Some(price) => Some(Details(pages[url].title, price))
  {
    AsWrittenJoinsBounds(low, high);
  }

  /**
   * A leading minus sign reads as a range with an empty first bound, so the
   * sign is lost: "-5" is fetched as 5.0.
   */
  lemma FetchDropsSign(pages: map<string, Page>, url: string, digits: string)
    requires url in pages && pages[url].priceText == "-" + digits
    requires digits != [] && AllDigits(digits)
    ensures FetchProductDetails(pages, url) == Some(Details(pages[url].title, NumeralValue(digits) as real))
  {
    assert NoSpace(digits) && '-' !in digits && '$' !in digits && ',' !in digits by {
      forall c | c in digits ensures IsDigit(c) {
        var i :| 0 <= i < |digits| && digits[i] == c;
      }
    }
    assert pages[url].priceText == [] + "-" + digits;
    assert [] + digits == digits;
    FetchJoinedRange(pages, url, [], digits);
    ParsePriceDigits(digits);
  }
}
