/**
 * The "Supported Resolutions" cell of the diagnostics page:
 * convertResolutionSliceToString writes each resolution as
 * `<width>x<height>` followed by one space. The reader below shows the text
 * is unambiguous: it gives back exactly the list it was made from.
 */
module ResolutionText {
  import opened Options
  import opened Decimal
  import opened CameraFormats

  /** The text of one resolution, trailing space included. */
  function Entry(r: Resolution): string {
    Itoa(r.width) + "x" + Itoa(r.height) + " "
  }

  /** The texts of all resolutions, in list order. */
  function Render(resolutions: seq<Resolution>): string {
    if resolutions == [] then "" else Entry(resolutions[0]) + Render(resolutions[1..])
  }

  lemma {:induction false} RenderAppend(a: seq<Resolution>, b: seq<Resolution>)
    ensures Render(a + b) == Render(a) + Render(b)
  {
    if a == [] {
      assert a + b == b;
    } else {
      assert (a + b)[0] == a[0];
      assert (a + b)[1..] == a[1..] + b;
      RenderAppend(a[1..], b);
    }
  }

  /** The loop of convertResolutionSliceToString: text accumulated entry by entry. */
  method ConvertResolutionSliceToString(resolutions: seq<Resolution>) returns (resolutionStr: string)
    ensures resolutionStr == Render(resolutions)
  {
    resolutionStr := "";
    for i := 0 to |resolutions|
      invariant resolutionStr == Render(resolutions[..i])
    {
      ghost var before := resolutionStr;
      resolutionStr := resolutionStr + Itoa(resolutions[i].width) + "x" + Itoa(resolutions[i].height) + " ";
      assert resolutionStr == before + Entry(resolutions[i]);
      assert Render([resolutions[i]]) == Entry(resolutions[i]) + Render([]);
      assert resolutions[..i + 1] == resolutions[..i] + [resolutions[i]];
      RenderAppend(resolutions[..i], [resolutions[i]]);
    }
    assert resolutions[..|resolutions|] == resolutions;
  }

  /** The outcome of reading one numeral field: its value and the characters it takes. */
  datatype FieldRead = NoField | Numeral(value: nat, length: nat)

  /** The outcome of reading one entry: the resolution and the characters it takes. */
  datatype EntryRead = NoEntry | Read(resolution: Resolution, length: nat)

  /**
   * Reads a canonical numeral at the start of `s` that ends with the
   * character `sep`, giving its value and the number of characters it takes,
   * separator included.
   */
  function ReadField(s: string, sep: char): (f: FieldRead)
    ensures f.Numeral? ==> 0 < f.length <= |s|
  {
    var k := LeadingDigits(s);
    if 0 < k < |s| && s[k] == sep && (s[0] == '0' ==> k == 1) then Numeral(ParseDecimal(s[..k]), k + 1)
    else NoField
  }

  /**
   * Reads one `<width>x<height> ` entry at the start of `s`; numerals must be
   * canonical, as Itoa writes them.
   */
  function ReadEntry(s: string): (e: EntryRead)
    ensures e.Read? ==> 0 < e.length <= |s|
  {
    var width := ReadField(s, 'x');
    if width.NoField? then NoEntry
    else
      var height := ReadField(s[width.length..], ' ');
      if height.NoField? then NoEntry
      else Read(Resolution(width.value, height.value), width.length + height.length)
  }

  /** Reads a whole text of entries back into the list of resolutions. */
  function ParseResolutions(s: string): Option<seq<Resolution>>
    decreases |s|
  {
    if s == [] then Some([])
    else
      var e := ReadEntry(s);
      if e.NoEntry? then None
      else
        match ParseResolutions(s[e.length..])
        case None => None
        case Some(rest) => Some([e.resolution] + rest)
  }

  /** A canonical numeral followed by its separator is read as one field, whatever follows. */
  lemma ReadFieldOf(s: string, d: string, sep: char, rest: string)
    requires Canonical(d) && !IsDigit(sep) && s == d + ([sep] + rest)
    ensures ReadField(s, sep) == Numeral(ParseDecimal(d), |d| + 1)
    ensures s[|d| + 1..] == rest
  {
    NumeralThenSeparator(d, [sep] + rest);
    assert ([sep] + rest)[1..] == rest;
  }

  /** What the reader has checked when it accepts a field: a canonical numeral, then the separator. */
  lemma ReadFieldLayout(s: string, sep: char) returns (d: string)
    requires ReadField(s, sep).Numeral?
    ensures Canonical(d) && ParseDecimal(d) == ReadField(s, sep).value
    ensures s[..ReadField(s, sep).length] == d + [sep]
  {
    var k := LeadingDigits(s);
    d := s[..k];
    assert s[..k + 1] == d + [sep];
  }

  /** The reader on a text whose fields are read: canonical `w` then `x`, canonical `h` then space. */
  lemma ReadEntryFields(s: string, w: string, t: string, h: string)
    requires Canonical(w) && Canonical(h)
    requires ReadField(s, 'x') == Numeral(ParseDecimal(w), |w| + 1)
    requires |w| + 1 <= |s| && s[|w| + 1..] == t
    requires ReadField(t, ' ') == Numeral(ParseDecimal(h), |h| + 1)
    ensures ReadEntry(s) == Read(Resolution(ParseDecimal(w), ParseDecimal(h)), |w| + |h| + 2)
  {
  }

  /** Two canonical numerals around an `x`, then a space: read as one entry, whatever follows. */
  lemma ReadNumerals(s: string, w: string, t: string, h: string, tail: string)
    requires Canonical(w) && Canonical(h)
    requires s == w + (['x'] + t) && t == h + ([' '] + tail)
    ensures ReadEntry(s) == Read(Resolution(ParseDecimal(w), ParseDecimal(h)), |w| + |h| + 2)
  {
    ReadFieldOf(s, w, 'x', t);
    ReadFieldOf(t, h, ' ', tail);
    ReadEntryFields(s, w, t, h);
  }

  /** What the reader has checked when it accepts an entry: two canonical numerals, `x`, space. */
  lemma ReadEntryLayout(s: string) returns (w: string, h: string)
    requires ReadEntry(s).Read?
    ensures Canonical(w) && Canonical(h)
    ensures ReadEntry(s) == Read(Resolution(ParseDecimal(w), ParseDecimal(h)), |w| + |h| + 2)
    ensures s[..|w| + |h| + 2] == w + ['x'] + h + [' ']
  {
    var k := ReadField(s, 'x').length;
    w := ReadFieldLayout(s, 'x');
    h := ReadFieldLayout(s[k..], ' ');
    var n := ReadEntry(s).length;
    assert s[..n] == s[..k] + s[k..][..n - k];
  }

  /** An entry as rendered is read whole, whatever follows it. */
  lemma ReadRenderedEntry(r: Resolution, tail: string)
    ensures ReadEntry(Entry(r) + tail) == Read(r, |Entry(r)|)
  {
    var w, h := Itoa(r.width), Itoa(r.height);
    assert Entry(r) + tail == w + (['x'] + (h + ([' '] + tail)));
    ReadNumerals(Entry(r) + tail, w, h + ([' '] + tail), h, tail);
    ParseItoa(r.width);
    ParseItoa(r.height);
  }

  /** What is read as an entry is the rendering of the resolution read. */
  lemma ReadEntryIsRendered(s: string)
    requires ReadEntry(s).Read?
    ensures s[..ReadEntry(s).length] == Entry(ReadEntry(s).resolution)
  {
    var w, h := ReadEntryLayout(s);
    ItoaParse(w);
    ItoaParse(h);
  }

  /** The rendered text determines the list: reading it gives the list back. */
  lemma {:induction false} ParseRender(resolutions: seq<Resolution>)
    ensures ParseResolutions(Render(resolutions)) == Some(resolutions)
  {
    if resolutions != [] {
      var r, tail := resolutions[0], Render(resolutions[1..]);
      ReadRenderedEntry(r, tail);
      assert (Entry(r) + tail)[|Entry(r)|..] == tail;
      ParseRender(resolutions[1..]);
      assert [r] + resolutions[1..] == resolutions;
    }
  }

  /** A text made of the text of `r`, then the text of `rest`, is the text of `[r] + rest`. */
  lemma RenderSplit(s: string, r: Resolution, n: nat, rest: seq<Resolution>)
    requires n <= |s| && s[..n] == Entry(r) && s[n..] == Render(rest)
    ensures Render([r] + rest) == s
  {
    assert ([r] + rest)[1..] == rest;
    assert s == s[..n] + s[n..];
  }

  /** A non-empty text the reader accepts: one rendered entry, then a text the reader accepts. */
  lemma ParseStep(s: string) returns (r: Resolution, n: nat, rest: seq<Resolution>)
    requires s != [] && ParseResolutions(s).Some?
    ensures 0 < n <= |s| && s[..n] == Entry(r)
    ensures ParseResolutions(s[n..]) == Some(rest)
    ensures ParseResolutions(s).value == [r] + rest
  {
    var e := ReadEntry(s);
    r, n := e.resolution, e.length;
    rest := ParseResolutions(s[n..]).value;
    ReadEntryIsRendered(s);
  }

  /** Only rendered texts are read: whatever the reader accepts renders back to itself. */
  lemma {:induction false} RenderParse(s: string)
    requires ParseResolutions(s).Some?
    ensures Render(ParseResolutions(s).value) == s
    decreases |s|
  {
    if s != [] {
      var r, n, rest := ParseStep(s);
      RenderParse(s[n..]);
      RenderSplit(s, r, n, rest);
    }
  }
}
