/** The application's own steps around the core: reading the "rows,cols"
    dimension text, setting up the board it starts from, and the export step
    that renders the full picture and the partial reveal with the same clues. */
module App {
  import opened Grids
  import opened Clues
  import opened Boards
  import opened Decimal
  import opened Texts
  import opened Render

  datatype Option<T> = None | Some(value: T)

  // ---------------------------------------------------------------------
  // int(text)

  /** The characters below code point 128 that int() strips around a number:
      space, tab, line feed, vertical tab, form feed and carriage return.
      (str.isspace also accepts U+001C to U+001F; int() does not.) */
  predicate IsSpace(c: char) {
    c == ' ' || c == '\t' || c == '\n' || c == '\r' || c == '\U{B}' || c == '\U{C}'
  }

  function TrimStart(s: string): (r: string)
    ensures |r| <= |s| && (r == [] || !IsSpace(r[0]))
  {
    if s != [] && IsSpace(s[0]) then TrimStart(s[1..]) else s
  }

  function TrimEnd(s: string): (r: string)
    ensures |r| <= |s| && (r == [] || !IsSpace(r[|r| - 1]))
  {
    if s != [] && IsSpace(s[|s| - 1]) then TrimEnd(s[..|s| - 1]) else s
  }

  /** Decimal digits, at least one and at most MaxStrDigits of them
      (leading zeros count). */
  function ParseDigits(d: string): Option<int> {
    if d != [] && |d| <= MaxStrDigits && AllDigits(d) then Some(DigitsValue(d)) else None
  }

  /** t is one to MaxStrDigits decimal digits denoting |v|, after a minus
      sign when v is negative and after an optional plus or minus sign
      otherwise. */
  ghost predicate IntegerText(t: string, v: int) {
    exists d :: d != [] && |d| <= MaxStrDigits && AllDigits(d) &&
      (((t == d || t == "+" + d) && v == DigitsValue(d)) || (t == "-" + d && v == -(DigitsValue(d) as int)))
  }

  /** An optional sign, then digits. */
  function ParseSigned(t: string): (r: Option<int>)
    ensures r.Some? ==> IntegerText(t, r.value)
  {
    if t != [] && t[0] == '-' then
      match ParseDigits(t[1..])
      case Some(v) => assert t == "-" + t[1..]; Some(-v)
      case None => None
    else if t != [] && t[0] == '+' then
      assert t == "+" + t[1..]; ParseDigits(t[1..])
    else ParseDigits(t)
  }

  /** Every sign-and-digits text is read as the number it denotes. */
  lemma ParseSignedComplete(t: string, v: int)
    requires IntegerText(t, v)
    ensures ParseSigned(t) == Some(v)
  {
    var d :| d != [] && |d| <= MaxStrDigits && AllDigits(d) &&
      (((t == d || t == "+" + d) && v == DigitsValue(d)) || (t == "-" + d && v == -(DigitsValue(d) as int)));
    if t != d {
      assert t[1..] == d;
    }
  }

  /** int(text) on a string: surrounding white space, an optional sign, and
      one or more decimal digits; anything else is a ValueError (None). */
  function ParseInt(text: string): (r: Option<int>)
    ensures r.Some? ==> IntegerText(TrimEnd(TrimStart(text)), r.value)
  {
    ParseSigned(TrimEnd(TrimStart(text)))
  }

  /** int(text) yields v exactly when, with the surrounding white space
      removed, text is a sign-and-digits text denoting v. */
  lemma ParseIntIff(text: string, v: int)
    ensures ParseInt(text) == Some(v) <==> IntegerText(TrimEnd(TrimStart(text)), v)
  {
    if IntegerText(TrimEnd(TrimStart(text)), v) {
      ParseSignedComplete(TrimEnd(TrimStart(text)), v);
    }
  }

  /** Surrounding white space is dropped. */
  lemma ParseIntAccepts()
    ensures ParseInt(" 3\n") == Some(3)
  {
    var t := " 3\n";
    assert t[1..] == "3\n";
    assert TrimStart(t) == "3\n";
    assert "3\n"[..1] == "3";
    assert TrimEnd("3\n") == "3";
    assert ParseDigits("3") == Some(3);
  }

  /** Other control characters around a number, and inner spaces, are not. */
  lemma ParseIntRejects()
    ensures ParseInt("\U{1C}3") == None
    ensures ParseInt("3 3") == None
  {
    var t := "\U{1C}3";
    assert !IsSpace(t[0]) && !IsDigit(t[0]);
    TrimUnchanged(t);
    var u := "3 3";
    assert !IsDigit(u[1]);
    TrimUnchanged(u);
  }

  /** More than MaxStrDigits digits are refused. */
  lemma ParseIntTooManyDigits()
    ensures ParseInt(seq(MaxStrDigits + 1, _ => '1')) == None
  {
    var t := seq(MaxStrDigits + 1, _ => '1');
    assert !IsSpace(t[0]) && !IsSpace(t[|t| - 1]) && t[0] == '1';
    TrimUnchanged(t);
  }

  /** Text with no white space at either end is left as it is. */
  lemma TrimUnchanged(s: string)
    requires s != [] && !IsSpace(s[0]) && !IsSpace(s[|s| - 1])
    ensures TrimEnd(TrimStart(s)) == s
  {
  }

  /** Digits, with or without a leading minus sign, read as their value. */
  lemma ParseIntDigits(d: string)
    requires d != [] && |d| <= MaxStrDigits && AllDigits(d)
    ensures ParseInt(d) == Some(DigitsValue(d) as int)
    ensures ParseInt("-" + d) == Some(-(DigitsValue(d) as int))
  {
    assert IsDigit(d[0]) && IsDigit(d[|d| - 1]);
    TrimUnchanged(d);
    ParseIntNegative(d);
  }

  lemma ParseIntNegative(d: string)
    requires d != [] && |d| <= MaxStrDigits && AllDigits(d)
    ensures ParseInt("-" + d) == Some(-(DigitsValue(d) as int))
  {
    var s := "-" + d;
    assert s[0] == '-';
    assert s[|s| - 1] == d[|d| - 1];
    assert IsDigit(d[|d| - 1]);
    TrimUnchanged(s);
    ParseSignedNegative(d);
  }

  lemma ParseSignedNegative(d: string)
    requires d != [] && |d| <= MaxStrDigits && AllDigits(d)
    ensures ParseSigned("-" + d) == Some(-(DigitsValue(d) as int))
  {
    assert ("-" + d)[1..] == d;
  }

  /** int(str(n)) == n, for every n that str() and int() accept. */
  lemma ParseIntRoundTrip(n: int)
    requires DigitCount(n) <= MaxStrDigits
    ensures ParseInt(IntToString(n)) == Some(n)
  {
    var m := if n < 0 then -n else n;
    NatToStringValue(m);
    ParseIntDigits(NatToString(m));
  }

  /** rows, cols = map(int, text.split(",")): exactly two fields, each an integer. */
  function ParseDimensions(text: string): (r: Option<(int, int)>)
    ensures r.Some? ==> |Split(text, ',')| == 2
  {
    var fields := Split(text, ',');
    if |fields| != 2 then None
    else
      match (ParseInt(fields[0]), ParseInt(fields[1]))
      case (Some(rows), Some(cols)) => Some((rows, cols))
      case _ => None
  }

  /** The decimal text of an integer holds only a sign and digits. */
  lemma IntToStringChars(n: int)
    ensures forall t :: 0 <= t < |IntToString(n)| ==> IntToString(n)[t] == '-' || IsDigit(IntToString(n)[t])
  {
  }

  /** Writing two integers with a comma between them reads back as those two. */
  lemma ParseDimensionsRoundTrip(rows: int, cols: int)
    requires DigitCount(rows) <= MaxStrDigits && DigitCount(cols) <= MaxStrDigits
    ensures ParseDimensions(IntToString(rows) + "," + IntToString(cols)) == Some((rows, cols))
  {
    var a, b := IntToString(rows), IntToString(cols);
    IntToStringChars(rows);
    IntToStringChars(cols);
    assert ',' !in a;
    assert ',' !in b;
    SplitNoSeparator(a, ',');
    SplitAfterSeparator(a, b, ',');
    assert a + "," + b == a + [','] + b;
    assert Split(a + "," + b, ',') == [a, b];
    ParseIntRoundTrip(rows);
    ParseIntRoundTrip(cols);
  }

  /** A single field, such as "3", is not a dimension. */
  lemma ParseDimensionsOneField()
    ensures ParseDimensions("3") == None
  {
    SplitNoSeparator("3", ',');
  }

  // ---------------------------------------------------------------------
  // Setting up the board from the dimension text.

  datatype Submission = NoInput | Invalid | Ready(board: Grid)

  /** The application as written: with no board stored yet, a valid text makes
      an empty board (a negative size makes np.zeros raise, reported as invalid
      input); once a board is stored it is kept whatever the new text says. */
  function SubmitAsWritten(text: string, stored: Option<Grid>): (r: Submission)
    ensures r.NoInput? <==> text == ""
    ensures r.Invalid? <==>
      text != "" &&
      (ParseDimensions(text).None? ||
       (stored.None? && (ParseDimensions(text).value.0 < 0 || ParseDimensions(text).value.1 < 0)))
    ensures r.Ready? && stored.Some? ==> r.board == stored.value
    ensures r.Ready? && stored.None? ==>
      r.board.Valid() && ParseDimensions(text) == Some((r.board.height, r.board.width)) && FilledSet(r.board) == {}
  {
    if text == "" then NoInput
    else
      match ParseDimensions(text)
      case None => Invalid
      case Some((rows, cols)) =>
        if stored.Some? then Ready(stored.value)
        else if rows < 0 || cols < 0 then Invalid
        else Ready(Zeros(rows, cols))
  }

  /** After a 3 by 3 board, the text "5,5" keeps the 3 by 3 board, so the
      button grid drawn for 5 by 5 indexes past its last column. */
  lemma StaleBoardAfterResize()
    ensures ParseDimensions("5,5") == Some((5, 5))
    ensures SubmitAsWritten("5,5", Some(Zeros(3, 3))) == Ready(Zeros(3, 3))
  {
    ParseDimensionsRoundTrip(5, 5);
    assert IntToString(5) + "," + IntToString(5) == "5,5";
  }

  /** Submitting dimensions as intended: the stored board is kept only when it
      already has the requested shape; otherwise a fresh empty board of that
      shape replaces it. */
  function Submit(text: string, stored: Option<Grid>): (r: Submission)
    ensures r.NoInput? <==> text == ""
    ensures r.Ready? ==>
      r.board.Valid() && ParseDimensions(text) == Some((r.board.height, r.board.width))
    ensures r.Invalid? <==>
      text != "" &&
      (ParseDimensions(text).None? || ParseDimensions(text).value.0 < 0 || ParseDimensions(text).value.1 < 0)
    ensures r.Ready? && stored.Some? && stored.value.Valid() &&
            stored.value.height == r.board.height && stored.value.width == r.board.width ==>
      r.board == stored.value
    ensures r.Ready? && (stored.None? || stored.value != r.board) ==> FilledSet(r.board) == {}
  {
    if text == "" then NoInput
    else
      match ParseDimensions(text)
      case None => Invalid
      case Some((rows, cols)) =>
        if rows < 0 || cols < 0 then Invalid
        else if stored.Some? && stored.value.Valid() && stored.value.height == rows && stored.value.width == cols
        then Ready(stored.value)
        else Ready(Zeros(rows, cols))
  }

  /** With nothing stored, the intended and the written set-up agree. */
  lemma SubmitFirstTime(text: string)
    ensures Submit(text, None) == SubmitAsWritten(text, None)
  {
  }

  // ---------------------------------------------------------------------
  // Export: "Gerar imagens".

  /** The export step: the clues of the current board, the picture of the
      board, and the picture of the partial board annotated with the same
      clues (they are not recomputed from the partial board). */
  method GenerateImages(board: array2<int>, perm: seq<int>) returns (full: Picture, partial: Picture)
    requires IsPermutation(perm, |FilledPositions(Snapshot(board))|)
    ensures full == SaveImage(Snapshot(board), Restrictions(Snapshot(board)))
    ensures partial == SaveImage(PartialGrid(Snapshot(board), perm), Restrictions(Snapshot(board)))
    ensures partial.width == full.width && partial.height == full.height
    ensures partial.rowLabels == full.rowLabels && partial.colLabels == full.colLabels
  {
    var restrictions := CreateRestrictions(board);
    full := SaveImage(Snapshot(board), restrictions);
    var partialBoard := BuildPartialBoard(board, perm);
    partial := SaveImage(Snapshot(partialBoard), restrictions);
    PartialGridProperties(Snapshot(board), perm);
  }

  /** The text of a row label splits at its spaces into pieces that int()
      reads back as the values of the clue, in order. */
  lemma RowLabelReadsBack(i: nat, clue: seq<int>)
    requires clue != []
    requires forall k :: 0 <= k < |clue| ==> DigitCount(clue[k]) <= MaxStrDigits
    ensures |Split(RowLabel(i, clue).text, ' ')| == |clue|
    ensures forall k :: 0 <= k < |clue| ==> ParseInt(Split(RowLabel(i, clue).text, ' ')[k]) == Some(clue[k])
  {
    var parts := Strings(clue);
    forall k | 0 <= k < |parts| ensures ' ' !in parts[k] {
      IntToStringChars(clue[k]);
    }
    assert RowLabel(i, clue).text == Join(parts, [' ']);
    JoinSplit(parts, ' ');
    forall k | 0 <= k < |clue| ensures ParseInt(parts[k]) == Some(clue[k]) {
      ParseIntRoundTrip(clue[k]);
    }
  }
}
