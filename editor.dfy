/**
 * The font-size part of the rich-text editor's `applyFormat`
 * (`src/components/BasicEditor.jsx`): a CSS pixel size chosen from the
 * toolbar is turned into one of the 1..7 sizes `execCommand('fontSize')`
 * accepts. Everything `applyFormat` does to the document is left out.
 */
module Editor {
  import opened Common

  /** The sizes the toolbar offers, as the values of its options. */
  const FontSizes: seq<string> := ["14px", "16px", "18px", "20px", "24px"]

  /**
   * The if/else chain on `parseInt(value)`. None is NaN: every comparison
   * with it is false, so it falls through to the last branch.
   */
  function FontSizeBucket(px: Option<int>): (size: int)
    ensures 1 <= size <= 6
    ensures px.None? ==> size == 6
    ensures px.Some? ==> (size == 1 <==> px.value < 15)
    ensures px.Some? ==> (size == 2 <==> 15 <= px.value < 17)
    ensures px.Some? ==> (size == 3 <==> 17 <= px.value < 19)
    ensures px.Some? ==> (size == 4 <==> 19 <= px.value < 21)
    ensures px.Some? ==> (size == 5 <==> 21 <= px.value < 25)
    ensures px.Some? ==> (size == 6 <==> px.value >= 25)
  {
    if px.None? then 6
    else if px.value < 15 then 1
    else if px.value < 17 then 2
    else if px.value < 19 then 3
    else if px.value < 21 then 4
    else if px.value < 25 then 5
    else 6
  }

  /** A larger pixel size never gives a smaller `execCommand` size. */
  lemma BucketMonotone(a: int, b: int)
    requires a <= b
    ensures FontSizeBucket(Some(a)) <= FontSizeBucket(Some(b))
  {
  }

  /**
   * The default of 3 never survives on its own: every branch of the chain
   * assigns, and 3 comes out only for sizes 17 and 18.
   */
  lemma DefaultOverwritten(px: Option<int>)
    ensures FontSizeBucket(px) == 3 <==> px.Some? && 17 <= px.value <= 18
  {
  }

  /** The argument `execCommand` receives. */
  datatype ExecArg = SizeArg(size: int) | ValueArg(value: Option<string>)

  /** `String(value)`, with None standing for the default `null`. */
  function ArgText(value: Option<string>): string
  {
    if value.None? then "null" else value.value
  }

  /** The third argument of `execCommand`: the bucket for `fontSize`, the value itself otherwise. */
  function ExecArgument(command: string, value: Option<string>): (r: ExecArg)
    ensures command != "fontSize" ==> r == ValueArg(value)
    ensures command == "fontSize" ==> r.SizeArg? && 1 <= r.size <= 6
  {
    if command == "fontSize" then SizeArg(FontSizeBucket(ParseInt(ArgText(value)))) else ValueArg(value)
  }

  /** A pixel value `"<n>px"` is read back as n. */
  lemma PixelValueParses(n: nat)
    ensures ParseInt(Decimal(n) + "px") == Some(n)
  {
    ParseIntDecimal(n, "px");
  }

  /** The five offered sizes land on the distinct sizes 1 to 5, in order. */
  lemma OfferedSizesDistinct(i: int)
    requires 0 <= i < |FontSizes|
    ensures ExecArgument("fontSize", Some(FontSizes[i])) == SizeArg(i + 1)
  {
    if i == 0 {
      OfferedSize(i, 14);
    } else if i == 1 {
      OfferedSize(i, 16);
    } else if i == 2 {
      OfferedSize(i, 18);
    } else if i == 3 {
      OfferedSize(i, 20);
    } else {
      OfferedSize(i, 24);
    }
  }

  lemma OfferedSize(i: int, n: nat)
    requires 0 <= i < |FontSizes| && 10 <= n < 100
    requires FontSizes[i] == [DigitChar(n / 10), DigitChar(n % 10), 'p', 'x']
    ensures ExecArgument("fontSize", Some(FontSizes[i])) == SizeArg(FontSizeBucket(Some(n)))
  {
    assert Decimal(n / 10) == [DigitChar(n / 10)];
    assert Decimal(n) + "px" == FontSizes[i];
    PixelValueParses(n);
  }
}
