/**
 The colour assigner (`computeDataStyle`): a district code's leading letter
 picks one of 18 palette entries. District codes never use the letters I and
 O, so the letter's offset from 'A' is moved down once for each of them that
 the code is at or past, which packs the eighteen used letters
 A..T onto the indices 0..17.
 */
module DistrictColors {

  import opened Options
  import JsText

  /** The 18 distinct fill colours, in palette order. */
  const Palette: seq<string> := [
    "#544171", "#87D84A", "#CE572B", "#71D0C9", "#CC53D3", "#C59C76",
    "#5A8237", "#466158", "#D4B743", "#7199C7", "#C14088", "#7A6DCE",
    "#62471F", "#91D593", "#BF4C57", "#CC8BB9", "#C4BEBE", "#512834"]

  /** A fill colour as the map host sees it: a palette entry, `undefined`
      (an index outside the palette), or a brightened variant of another
      colour (the colour library's work is not modelled, only its input). */
  datatype FillColor = Hex(rgb: string) | Undefined | Brightened(base: FillColor, amount: nat)

  /** The style object handed to `setStyle`. The source writes `strokeWeight`
      twice with the same value; an object literal keeps one such field. */
  datatype Style = Style(strokeWeight: real, fillColor: FillColor, fillOpacity: real)

  const StrokeWeight: real := 1.25
  const FillOpacity: real := 0.5

  /** The palette index computed from a code: `charCodeAt(0) - 65`, minus one
      for each of the whole-string tests `code >= "I"` and `code >= "O"` that
      holds. An empty code has no first character and the index is NaN (None). */
  function ColorIndex(code: string): (r: Option<int>)
    ensures r.None? <==> |code| == 0
    ensures r.Some? ==>
      code[0] as int - 'A' as int - 2 <= r.value <= code[0] as int - 'A' as int
  {
    if |code| == 0 then None
    else
      var offset := code[0] as int - 'A' as int;
      var afterI := if JsText.AtLeast(code, "I") then 1 else 0;
      var afterO := if JsText.AtLeast(code, "O") then 1 else 0;
      Some(offset - afterI - afterO)
  }

  /** `dcAreaColors[index]`: a palette entry, or `undefined` for NaN and for
      every index the palette does not have. */
  function PaletteColor(index: Option<int>): (c: FillColor)
    ensures c.Hex? <==> index.Some? && 0 <= index.value < |Palette|
    ensures c.Hex? ==> c.rgb == Palette[index.value]
    ensures !c.Brightened?
  {
    match index
    case Some(i) => if 0 <= i < |Palette| then Hex(Palette[i]) else Undefined
    case None => Undefined
  }

  /** `computeDataStyle(dcCode)`. */
  function DataStyle(code: string): (s: Style)
    ensures s.strokeWeight == 1.25 && s.fillOpacity == 0.5
    ensures s.fillColor.Hex? ==> s.fillColor.rgb in Palette
    ensures !s.fillColor.Brightened?
  {
    Style(StrokeWeight, PaletteColor(ColorIndex(code)), FillOpacity)
  }

  /** The two letters the district coding scheme leaves out. */
  const Skipped: set<char> := {'I', 'O'}

  /** The letters district codes start with: A to T, without I and O. */
  predicate UsedLetter(c: char)
  {
    'A' <= c <= 'T' && c !in Skipped
  }

  /** Reference definition of the index of a leading letter: its offset from
      'A' less the number of skipped letters at or before it. */
  function LetterIndex(c: char): int
  {
    c as int - 'A' as int - |set s | s in Skipped && s <= c|
  }

  /** The i-th used letter (0-based), the inverse of LetterIndex. */
  function LetterAt(i: nat): char
    requires i < |Palette|
  {
    var code := 'A' as int + i + (if i >= 8 then 1 else 0) + (if i >= 13 then 1 else 0);
    code as char
  }

  lemma SkippedUpTo(c: char)
    ensures c < 'I' ==> (set s | s in Skipped && s <= c) == {}
    ensures 'I' <= c < 'O' ==> (set s | s in Skipped && s <= c) == {'I'}
    ensures 'O' <= c ==> (set s | s in Skipped && s <= c) == {'I', 'O'}
  {
  }

  /** For a non-empty code the whole-string tests agree with comparing its
      first letter, so the computed index is the reference index of that
      letter. */
  lemma ColorIndexOfFirstLetter(code: string)
    requires |code| > 0
    ensures ColorIndex(code) == Some(LetterIndex(code[0]))
  {
    JsText.AtLeastLetter(code, 'I');
    JsText.AtLeastLetter(code, 'O');
    SkippedUpTo(code[0]);
  }

  /** The index never decreases as the leading letter grows, and it grows
      strictly between used letters. */
  lemma LetterIndexMonotone(c1: char, c2: char)
    requires c1 <= c2
    ensures LetterIndex(c1) <= LetterIndex(c2)
    ensures UsedLetter(c1) && UsedLetter(c2) && c1 < c2 ==> LetterIndex(c1) < LetterIndex(c2)
  {
    SkippedUpTo(c1);
    SkippedUpTo(c2);
  }

  /** Every used letter lands inside the palette, and LetterAt gives it back. */
  lemma UsedLetterInPalette(c: char)
    requires UsedLetter(c)
    ensures 0 <= LetterIndex(c) < |Palette|
    ensures LetterAt(LetterIndex(c)) == c
  {
    SkippedUpTo(c);
  }

  /** Every palette index is reached by exactly the used letter LetterAt(i):
      the used letters fill 0..17 with no gap. */
  lemma LetterAtIsUsed(i: nat)
    requires i < |Palette|
    ensures UsedLetter(LetterAt(i))
    ensures LetterIndex(LetterAt(i)) == i
  {
    SkippedUpTo(LetterAt(i));
  }

  /** No two palette entries are the same colour. */
  lemma PaletteDistinct()
    ensures forall i, j :: 0 <= i < j < |Palette| ==> Palette[i] != Palette[j]
  {
    forall i, j | 0 <= i < j < |Palette| ensures Palette[i] != Palette[j] {
      assert Palette[i][1] != Palette[j][1] || Palette[i][2] != Palette[j][2]
        || Palette[i][3] != Palette[j][3] || Palette[i][4] != Palette[j][4];
    }
  }

  /** A code whose first letter is used gets palette entry LetterIndex of it,
      with the fixed stroke weight and fill opacity. */
  lemma DataStyleOfUsedCode(code: string)
    requires |code| > 0 && UsedLetter(code[0])
    ensures 0 <= LetterIndex(code[0]) < |Palette|
    ensures DataStyle(code).fillColor == Hex(Palette[LetterIndex(code[0])])
    ensures DataStyle(code).strokeWeight == 1.25 && DataStyle(code).fillOpacity == 0.5
  {
    ColorIndexOfFirstLetter(code);
    UsedLetterInPalette(code[0]);
  }

  /** Codes starting with different used letters get different colours. */
  lemma DistinctLettersDistinctColors(a: string, b: string)
    requires |a| > 0 && |b| > 0 && UsedLetter(a[0]) && UsedLetter(b[0])
    requires a[0] != b[0]
    ensures DataStyle(a).fillColor != DataStyle(b).fillColor
  {
    DataStyleOfUsedCode(a);
    DataStyleOfUsedCode(b);
    if a[0] < b[0] {
      LetterIndexMonotone(a[0], b[0]);
    } else {
      LetterIndexMonotone(b[0], a[0]);
    }
    UsedLetterInPalette(a[0]);
    UsedLetterInPalette(b[0]);
    PaletteDistinct();
  }

  /** The colour depends only on the first letter: the rest of the code plays
      no part. */
  lemma ColorOnlyFromFirstLetter(a: string, b: string)
    requires |a| > 0 && |b| > 0 && a[0] == b[0]
    ensures DataStyle(a) == DataStyle(b)
  {
    ColorIndexOfFirstLetter(a);
    ColorIndexOfFirstLetter(b);
  }

  /** The empty code and codes starting past T get no palette colour
      (`undefined`); so do codes starting before A. */
  lemma UndefinedOutsideUsedRange(code: string)
    requires |code| == 0 || code[0] < 'A' || 'T' < code[0]
    ensures DataStyle(code).fillColor == Undefined
  {
    if |code| > 0 {
      ColorIndexOfFirstLetter(code);
      SkippedUpTo(code[0]);
    }
  }

  /** Worked values: A is 0, D is 3, H is 7, J is 8, P is 13 and T is 17. The
      unused letters I and O would share the colours of H and N. */
  lemma ColorIndexExamples()
    ensures ColorIndex("A") == Some(0) && ColorIndex("D") == Some(3)
    ensures ColorIndex("H") == Some(7) && ColorIndex("J") == Some(8)
    ensures ColorIndex("P") == Some(13) && ColorIndex("T") == Some(17)
    ensures ColorIndex("I") == ColorIndex("H") && ColorIndex("O") == ColorIndex("N")
    ensures DataStyle("D").fillColor == Hex("#71D0C9")
  {
    ColorIndexOfFirstLetter("A");
    ColorIndexOfFirstLetter("D");
    ColorIndexOfFirstLetter("H");
    ColorIndexOfFirstLetter("I");
    ColorIndexOfFirstLetter("J");
    ColorIndexOfFirstLetter("N");
    ColorIndexOfFirstLetter("O");
    ColorIndexOfFirstLetter("P");
    ColorIndexOfFirstLetter("T");
    SkippedUpTo('A');
    SkippedUpTo('D');
    SkippedUpTo('H');
    SkippedUpTo('I');
    SkippedUpTo('J');
    SkippedUpTo('N');
    SkippedUpTo('O');
    SkippedUpTo('P');
    SkippedUpTo('T');
  }

}
