/** The glyph table: each character's bitmap, written as five rows of text
    and reshaped into columns, because the display draws and scrolls column
    by column. */
module Glyphs {
  import opened Values

  const NumRows := 5

  /** One column of a glyph, top to bottom; '#' is lit, anything else unlit. */
  type Column = string

  /** A glyph: its columns, left to right. */
  type Glyph = seq<Column>

  /** `blank_column`: a glyph of one unlit column. */
  const BlankColumn: Glyph := ["     "]

  /** Every column of `g` is `NumRows` cells tall. */
  predicate WellFormed(g: Glyph) {
    forall c :: 0 <= c < |g| ==> |g[c]| == NumRows
  }

  /** Every column of `g` is unlit. */
  predicate IsBlank(g: Glyph) {
    forall c :: 0 <= c < |g| ==> g[c] == BlankColumn[0]
  }

  /** `blank_column * n`: Python list repetition, empty for `n <= 0`. */
  function Blanks(n: int): (r: Glyph)
    ensures |r| == if n <= 0 then 0 else n
    ensures WellFormed(r) && IsBlank(r)
  {
    if n <= 0 then [] else Blanks(n - 1) + BlankColumn
  }

  /** The letters of `s` at positions c, c + w, c + 2w, ... in order: the
      letters `_convert` appends to column `c` when there are `w` columns. */
  function Strided(s: string, c: nat, w: nat): string
    requires w > 0
    decreases |s| - c
  {
    if c >= |s| then [] else [s[c]] + Strided(s, c + w, w)
  }

  /** The columns `_convert` builds from a string of at least `NumRows`
      letters: `|s| / NumRows` of them, column c holding every
      (|s| / NumRows)-th letter from position c. */
  function Columns(s: string): Glyph {
    if |s| < NumRows then [] else seq(|s| / NumRows, c requires 0 <= c < |s| / NumRows => Strided(s, c, |s| / NumRows))
  }

  /** `_convert`: a non-empty string shorter than `NumRows` has no columns,
      and the first `index % 0` raises. */
  function Convert(s: string): (r: Result<Glyph>)
    ensures r.Err? <==> 0 < |s| < NumRows
    ensures r.Err? ==> r.error == ZeroDivisionError
    ensures r.Ok? ==> |r.value| == |s| / NumRows
    ensures r.Ok? && |s| % NumRows == 0 ==> WellFormed(r.value)
  {
    if 0 < |s| < NumRows then Err(ZeroDivisionError)
    else if |s| >= NumRows && |s| % NumRows == 0 then
      ColumnsTranspose(s, |s| / NumRows);
      Ok(Columns(s))
    else Ok(Columns(s))
  }

  /** Taking one more letter of `s` extends the strided column through `c`
      exactly when that letter's position is c plus a multiple of w. */
  lemma {:induction false} StridedExtend(s: string, i: nat, c: nat, w: nat)
    requires w > 0 && i < |s|
    ensures Strided(s[..i + 1], c, w) ==
      Strided(s[..i], c, w) + (if c <= i && (i - c) % w == 0 then [s[i]] else [])
    decreases i + 1 - c
  {
    var t, u := s[..i + 1], s[..i];
    if c == i {
      assert Strided(t, c, w) == [t[c]] + Strided(t, c + w, w);
      assert Strided(t, c + w, w) == [];
      assert Strided(u, c, w) == [];
    } else if c < i {
      StridedExtend(s, i, c + w, w);
      ModuloStepIff(i - c, w);
      assert Strided(t, c, w) == [t[c]] + Strided(t, c + w, w);
      assert Strided(u, c, w) == [u[c]] + Strided(u, c + w, w);
      assert t[c] == u[c];
    }
  }

  lemma ModuloStepIff(d: int, w: int)
    requires w > 0 && d > 0
    ensures (d >= w && (d - w) % w == 0) <==> d % w == 0
  {
    if d >= w {
      ModuloStep(d, w);
    } else {
      assert d % w == d;
    }
  }

  lemma ModuloStep(d: int, w: int)
    requires w > 0 && d >= w
    ensures (d - w) % w == d % w
  {
    assert d == (d / w) * w + d % w;
    assert d - w == ((d - w) / w) * w + (d - w) % w;
    assert d == ((d - w) / w + 1) * w + (d - w) % w;
    DivModUnique(d, w, (d - w) / w + 1, (d - w) % w, d / w, d % w);
  }

  /** `_convert` builds exactly `Convert`: the first loop makes `|s| / 5`
      empty columns, the second appends letter `index` to column
      `index % |columns|`. */
  method ConvertColumns(s: string) returns (r: Result<Glyph>)
    ensures r == Convert(s)
    ensures r.Ok? ==> |r.value| == |s| / NumRows
  {
    var numColumns := |s| / NumRows;
    var columns: seq<Column> := [];
    for x := 0 to numColumns
      invariant |columns| == x
      invariant forall c :: 0 <= c < x ==> columns[c] == []
    {
      columns := columns + [[]];
    }
    var index := 0;
    while index < |s|
      invariant 0 <= index <= |s|
      invariant |columns| == numColumns
      invariant numColumns > 0 ==>
        forall c :: 0 <= c < numColumns ==> columns[c] == Strided(s[..index], c, numColumns)
      invariant numColumns == 0 ==> index == 0
    {
      if numColumns == 0 {
        return Err(ZeroDivisionError);
      }
      var c := index % numColumns;
      forall k | 0 <= k < numColumns
        ensures Strided(s[..index + 1], k, numColumns) ==
          Strided(s[..index], k, numColumns) + (if k == c then [s[index]] else [])
      {
        StridedExtend(s, index, k, numColumns);
        ModuloSelectsColumn(index, k, numColumns);
      }
      columns := columns[c := columns[c] + [s[index]]];
      index := index + 1;
    }
    assert s[..|s|] == s;
    if numColumns > 0 {
      assert columns == Columns(s);
    }
    r := Ok(columns);
  }

  lemma ModuloSelectsColumn(i: nat, k: nat, w: nat)
    requires k < w
    ensures (k <= i && (i - k) % w == 0) <==> k == i % w
  {
    if k <= i && (i - k) % w == 0 {
      var p := (i - k) / w;
      assert i - k == p * w + (i - k) % w;
      DivModUnique(i, w, p, k, i / w, i % w);
    }
    if k == i % w {
      assert i - k == (i / w) * w + 0;
      DivModUnique(i - k, w, (i / w), 0, (i - k) / w, (i - k) % w);
    }
  }

  /** Euclidean division is unique: the remainders agree. */
  lemma DivModUnique(i: int, w: int, p: int, k: int, q: int, m: int)
    requires w > 0 && 0 <= k < w && 0 <= m < w
    requires i == p * w + k && i == q * w + m
    ensures k == m
  {
    if p < q {
      assert (p + 1) * w == p * w + w;
      MulMonotone(p + 1, q, w);
    } else if q < p {
      assert (q + 1) * w == q * w + w;
      MulMonotone(q + 1, p, w);
    }
  }

  lemma {:induction false} MulMonotone(a: int, b: int, w: int)
    requires a <= b && w >= 0
    ensures a * w <= b * w
    decreases b - a
  {
    if a < b {
      MulMonotone(a, b - 1, w);
      assert b * w == (b - 1) * w + w;
    }
  }

  /** Row r of column c of a strided column is the letter r steps further. */
  lemma {:induction false} StridedAt(s: string, c: nat, w: nat, r: nat)
    requires w > 0 && c + r * w < |s|
    ensures r < |Strided(s, c, w)| && Strided(s, c, w)[r] == s[c + r * w]
    decreases r
  {
    var next := c + w;
    assert r * w >= 0;
    assert c < |s|;
    assert Strided(s, c, w) == [s[c]] + Strided(s, next, w);
    if r > 0 {
      assert next + (r - 1) * w == c + r * w by {
        assert (r - 1) * w == r * w - w;
      }
      StridedAt(s, next, w, r - 1);
    }
  }

  /** A strided column has n letters when its n-th step is the first past
      the end. */
  lemma {:induction false} StridedLength(s: string, c: nat, w: nat, n: nat)
    requires w > 0
    requires n == 0 || c + (n - 1) * w < |s|
    requires |s| <= c + n * w
    ensures |Strided(s, c, w)| == n
    decreases n
  {
    if n > 0 {
      assert c + w + (n - 1) * w == c + n * w;
      if n > 1 {
        assert c + w + (n - 2) * w == c + (n - 1) * w;
      }
      StridedLength(s, c + w, w, n - 1);
    }
  }

  /** `_convert` of a string of NUM_ROWS rows of width w is the transpose of
      those rows: w columns, each NUM_ROWS tall, with row r of column c being
      letter r * w + c. */
  lemma ColumnsTranspose(s: string, w: nat)
    requires w > 0 && |s| == NumRows * w
    ensures |Columns(s)| == w && WellFormed(Columns(s))
    ensures forall c, r :: 0 <= c < w && 0 <= r < NumRows ==> Columns(s)[c][r] == s[r * w + c]
  {
    assert |s| / NumRows == w;
    forall c | 0 <= c < w
      ensures |Columns(s)[c]| == NumRows
    {
      StridedLength(s, c, w, NumRows);
    }
    forall c, r | 0 <= c < w && 0 <= r < NumRows
      ensures Columns(s)[c][r] == s[r * w + c]
    {
      assert c + r * w < c + NumRows * w - w + w by {
        assert r * w <= (NumRows - 1) * w;
      }
      assert c + r * w < |s|;
      StridedAt(s, c, w, r);
    }
  }

  /** `_glyphs`: each character's bitmap as its five rows, top to bottom. */
  function Source(): (t: map<char, string>)
    ensures t.Keys == {'0', '1', '2', '3', '4', '5', '6', '7', '8', '9', '?'}
    ensures forall k :: k in t ==> |t[k]| in {3 * NumRows, 4 * NumRows, 5 * NumRows}
  {
    map[
      '0' := " ## " + "#  #" + "#  #" + "#  #" + " ## ",
      '1' := " # " + "## " + " # " + " # " + "###",
      '2' := "### " + "   #" + " ## " + "#   " + "####",
      '3' := "####" + "   #" + "  # " + "#  #" + " ## ",
      '4' := "  ## " + " # # " + "#  # " + "#####" + "   # ",
      '5' := "#####" + "#    " + "#### " + "    #" + "#### ",
      '6' := "   # " + "  #  " + " ### " + "#   #" + " ### ",
      '7' := "#####" + "   # " + "  #  " + " #   " + "#    ",
      '8' := " ### " + "#   #" + " ### " + "#   #" + " ### ",
      '9' := " ### " + "#   #" + " ### " + "  #  " + " #   ",
      '?' := " ### " + "#   #" + "  ## " + "     " + "  #  "
    ]
  }

  /** Every bitmap of the table is five rows of one width between 3 and 5,
      so its conversion is 3 to 5 columns of NUM_ROWS cells. */
  lemma SourceConvertsToGlyphs()
    ensures forall k :: k in Source() ==>
      3 <= |Columns(Source()[k])| <= 5 && WellFormed(Columns(Source()[k]))
  {
    forall k | k in Source()
      ensures 3 <= |Columns(Source()[k])| <= 5 && WellFormed(Columns(Source()[k]))
    {
      BitmapConverts(Source()[k]);
    }
  }

  /** A bitmap of five rows of one width w converts to w columns. */
  lemma BitmapConverts(s: string)
    requires |s| in {3 * NumRows, 4 * NumRows, 5 * NumRows}
    ensures 3 <= |Columns(s)| <= 5 && WellFormed(Columns(s))
  {
    ColumnsTranspose(s, |s| / NumRows);
  }

  /** `glyphs`: the table with every bitmap converted, and the same keys. */
  function Table(): (t: map<char, Glyph>)
    ensures t.Keys == Source().Keys
    ensures forall k :: k in t ==> Convert(Source()[k]) == Ok(t[k])
    ensures forall k :: k in t ==> 3 <= |t[k]| <= 5 && WellFormed(t[k])
  {
    SourceConvertsToGlyphs();
    map k | k in Source() :: Columns(Source()[k])
  }

  /** `get_glyph`: total; a character missing from the table gets the '?'
      glyph. Every glyph it returns is 3 to 5 columns of NUM_ROWS cells. */
  function GetGlyph(letter: char): (g: Glyph)
    ensures letter in Source() ==> g == Table()[letter]
    ensures letter !in Source() ==> g == Table()['?']
    ensures 3 <= |g| <= 5 && WellFormed(g)
  {
    if letter in Table() then Table()[letter] else Table()['?']
  }
}
