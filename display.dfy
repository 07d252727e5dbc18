/** The 5x5 LED matrix: a grid of Pixels and a power flag. Every redraw is
    announced as one batched message through `_send_message`, which the
    device rebinds to a broadcast to every viewer; here each message is
    appended to the ghost outbox `Sent`. */
module Displays {
  import opened Values
  import opened Pixels
  import opened Glyphs

  const MaxX := 5
  const MaxY := 5

  /** `format_pixel(x, y, brightness)`: the tuple ((x, y), brightness). */
  datatype PixelEntry = PixelEntry(x: int, y: int, brightness: int)

  /** What the display hands to `_send_message`. */
  datatype Message =
    | PixelsMessage(pixels: seq<PixelEntry>)
    | OnOffMessage(isOn: bool)

  /** A pixel entry as it is serialised: tuples become lists. */
  function EntryValue(e: PixelEntry): Value {
    List([List([Int(e.x), Int(e.y)]), Int(e.brightness)])
  }

  function EntriesValue(es: seq<PixelEntry>): (v: Value)
    ensures v.List? && |v.items| == |es|
  {
    List(seq(|es|, i requires 0 <= i < |es| => EntryValue(es[i])))
  }

  /** `format_pixel` loses nothing: two pixels with the same JSON shape are
      the same pixel. */
  lemma EntryValueInjective(a: PixelEntry, b: PixelEntry)
    ensures EntryValue(a) == EntryValue(b) <==> a == b
  {
    if EntryValue(a) == EntryValue(b) {
      assert EntryValue(a).items[0].items[0] == Int(a.x);
      assert EntryValue(a).items[0].items[1] == Int(a.y);
    }
  }

  /** A `pixels` list determines the pixel entries it was built from, in
      order. */
  lemma EntriesValueInjective(a: seq<PixelEntry>, b: seq<PixelEntry>)
    ensures EntriesValue(a) == EntriesValue(b) <==> a == b
  {
    if EntriesValue(a) == EntriesValue(b) {
      forall i | 0 <= i < |a|
        ensures a[i] == b[i]
      {
        assert EntriesValue(a).items[i] == EntryValue(a[i]);
        assert EntriesValue(b).items[i] == EntryValue(b[i]);
        EntryValueInjective(a[i], b[i]);
      }
    }
  }

  /** The `message_name` of a display message: MSG_PIXELS or MSG_ON_OFF. */
  function MessageName(m: Message): (n: string)
    ensures n == "DISPLAY_PIXELS" <==> m.PixelsMessage?
    ensures n == "DISPLAY_ON_OFF" <==> m.OnOffMessage?
  {
    match m
    case PixelsMessage(_) => "DISPLAY_PIXELS"
    case OnOffMessage(_) => "DISPLAY_ON_OFF"
  }

  /** The `data` of a display message. */
  function MessageData(m: Message): (d: map<string, Value>)
    ensures "message_name" !in d
    ensures m.PixelsMessage? ==> d.Keys == {"pixels"} && d["pixels"] == EntriesValue(m.pixels)
    ensures m.OnOffMessage? ==> d.Keys == {"is_on"} && d["is_on"] == Bool(m.isOn)
  {
    match m
    case PixelsMessage(es) => map["pixels" := EntriesValue(es)]
    case OnOffMessage(b) => map["is_on" := Bool(b)]
  }

  /** Brightness by column x, then row y. */
  type Grid = seq<seq<int>>

  predicate IsGrid(g: Grid) {
    |g| == MaxX && forall x :: 0 <= x < MaxX ==> |g[x]| == MaxY
  }

  const ZeroColumn: seq<int> := [0, 0, 0, 0, 0]

  /** Every cell dark. */
  function ZeroGrid(): (g: Grid)
    ensures IsGrid(g)
    ensures forall x, y :: 0 <= x < MaxX && 0 <= y < MaxY ==> g[x][y] == 0
  {
    [ZeroColumn, ZeroColumn, ZeroColumn, ZeroColumn, ZeroColumn]
  }

  /** The 25 cells of a grid in the order the source lists them: x-major,
      then y. */
  function Entries(g: Grid): seq<PixelEntry>
    requires IsGrid(g)
  {
    seq(MaxX * MaxY, i requires 0 <= i < MaxX * MaxY =>
      PixelEntry(i / MaxY, i % MaxY, g[i / MaxY][i % MaxY]))
  }

  /** The entry list names every cell exactly once, with its brightness. */
  lemma EntriesListEveryCell(g: Grid)
    requires IsGrid(g)
    ensures |Entries(g)| == MaxX * MaxY
    ensures forall x, y :: 0 <= x < MaxX && 0 <= y < MaxY ==>
      Entries(g)[x * MaxY + y] == PixelEntry(x, y, g[x][y])
    ensures forall i, j :: 0 <= i < j < MaxX * MaxY ==>
      (Entries(g)[i].x, Entries(g)[i].y) != (Entries(g)[j].x, Entries(g)[j].y)
  {
  }

  /** Listing one more cell, in x-major order, appends that cell's entry. */
  lemma EntriesNext(g: Grid, x: nat, y: nat)
    requires IsGrid(g) && x < MaxX && y < MaxY
    ensures x * MaxY + y < MaxX * MaxY
    ensures Entries(g)[..x * MaxY + y + 1] == Entries(g)[..x * MaxY + y] + [PixelEntry(x, y, g[x][y])]
  {
    var i := x * MaxY + y;
    assert i / MaxY == x && i % MaxY == y;
  }

  /** A glyph that fills the display: MAX_X columns of MAX_Y cells. */
  predicate IsFrame(f: Glyph) {
    |f| == MaxX && WellFormed(f)
  }

  /** The brightness `_draw_glyph` gives each cell of a frame. */
  function Render(f: Glyph): (g: Grid)
    requires IsFrame(f)
    ensures IsGrid(g)
  {
    seq(MaxX, x requires 0 <= x < MaxX =>
      seq(MaxY, y requires 0 <= y < MaxY => if f[x][y] == '#' then 9 else 0))
  }

  /** The one message `_draw_glyph` sends for a frame. */
  function DrawMessage(f: Glyph): (m: Message)
    requires IsFrame(f)
    ensures m.PixelsMessage? && |m.pixels| == MaxX * MaxY
  {
    PixelsMessage(Entries(Render(f)))
  }

  /** `_draw_glyph` lights a cell at full brightness exactly where the frame
      has '#', and darkens every other cell. */
  lemma RenderLightsHashes(f: Glyph)
    requires IsFrame(f)
    ensures forall x, y :: 0 <= x < MaxX && 0 <= y < MaxY ==>
      (Render(f)[x][y] == 9 <==> f[x][y] == '#') && (Render(f)[x][y] == 0 <==> f[x][y] != '#')
  {
  }

  /** The message `_draw_glyph` sends lists every cell once, in x-major
      order, with the brightness the frame gives it. */
  lemma DrawMessageListsFrame(f: Glyph)
    requires IsFrame(f)
    ensures forall x, y :: 0 <= x < MaxX && 0 <= y < MaxY ==>
      DrawMessage(f).pixels[x * MaxY + y] == PixelEntry(x, y, if f[x][y] == '#' then 9 else 0)
  {
    var g := Render(f);
    EntriesListEveryCell(g);
    forall x, y | 0 <= x < MaxX && 0 <= y < MaxY
      ensures DrawMessage(f).pixels[x * MaxY + y] == PixelEntry(x, y, if f[x][y] == '#' then 9 else 0)
    {
      assert DrawMessage(f).pixels == Entries(g);
      assert g[x][y] == if f[x][y] == '#' then 9 else 0;
    }
  }

  /** A blank frame draws as the all-dark grid, so it sends exactly the
      message `clear()` sends. */
  lemma BlankFrameIsClear()
    ensures IsFrame(Blanks(MaxX)) && Render(Blanks(MaxX)) == ZeroGrid()
    ensures DrawMessage(Blanks(MaxX)) == PixelsMessage(Entries(ZeroGrid()))
  {
    var f := Blanks(MaxX);
    forall x | 0 <= x < MaxX
      ensures Render(f)[x] == ZeroGrid()[x]
    {
      assert f[x] == "     ";
    }
  }

  /** `_monospace`: centres a glyph in MAX_X columns. `half_diff` is the float
      (MAX_X - width) / 2; the left pad is its floor, the right pad its ceil,
      and `blank_column * n` is empty for a negative n, so a glyph wider than
      the display comes back unchanged. */
  function Monospace(glyph: Glyph): (r: Glyph)
    ensures |glyph| <= MaxX ==> |r| == MaxX
    ensures |glyph| > MaxX ==> r == glyph
    ensures WellFormed(glyph) ==> WellFormed(r)
  {
    var twiceHalfDiff := MaxX - |glyph|;
    Blanks(twiceHalfDiff / 2) + glyph + Blanks((twiceHalfDiff + 1) / 2)
  }

  /** A glyph no wider than the display comes back centred: blank columns,
      then the glyph unchanged, then blank columns, with the left padding
      equal to the right or one column narrower. */
  lemma MonospaceCentres(glyph: Glyph)
    requires |glyph| <= MaxX
    ensures var r := Monospace(glyph);
      var left := (MaxX - |glyph|) / 2;
      var right := MaxX - |glyph| - left;
      left <= right <= left + 1 &&
      IsBlank(r[..left]) && r[left..left + |glyph|] == glyph && IsBlank(r[left + |glyph|..])
  {
    var l := Blanks((MaxX - |glyph|) / 2);
    var rr := Blanks((MaxX - |glyph| + 1) / 2);
    assert Monospace(glyph) == l + glyph + rr;
    assert (l + glyph + rr)[..|l|] == l;
    assert (l + glyph + rr)[|l|..|l| + |glyph|] == glyph;
    assert (l + glyph + rr)[|l| + |glyph|..] == rr;
  }

  /** The frame `show` draws for one letter: its glyph, centred. */
  function ShowFrame(letter: char): (f: Glyph)
    ensures IsFrame(f)
    ensures f == Monospace(GetGlyph(letter))
  {
    Monospace(GetGlyph(letter))
  }

  /** The messages of one pass of `show(text)`: one per letter. */
  function ShowMessages(text: string): (ms: seq<Message>)
    ensures |ms| == |text|
  {
    if text == [] then []
    else ShowMessages(text[..|text| - 1]) + [DrawMessage(ShowFrame(text[|text| - 1]))]
  }

  /** The grid after one pass of `show(text)` from grid `start`: the last
      letter's frame, or `start` when there is no letter. */
  function ShowGrid(text: string, start: Grid): Grid {
    if text == [] then start else Render(ShowFrame(text[|text| - 1]))
  }

  /** Taking one more letter adds that letter's message and makes its frame
      the grid. */
  lemma ShowOneMore(text: string, i: nat, start: Grid)
    requires i < |text|
    ensures ShowMessages(text[..i + 1]) == ShowMessages(text[..i]) + [DrawMessage(ShowFrame(text[i]))]
    ensures ShowGrid(text[..i + 1], start) == Render(ShowFrame(text[i]))
  {
    assert text[..i + 1][..i] == text[..i];
  }

  /** Appending to the tail of a log appends to the log. */
  lemma LogGrows(log: seq<Message>, before: seq<Message>, after: seq<Message>, m: Message)
    requires after == before + [m]
    ensures log + after == (log + before) + [m]
  {
  }

  /** What `scroll` adds to the strip for one letter: the centred glyph, or
      the glyph followed by one blank column. */
  function Piece(letter: char, monospace: bool): (p: Glyph)
    ensures WellFormed(p)
    ensures |p| == if monospace then MaxX else |GetGlyph(letter)| + 1
  {
    if monospace then Monospace(GetGlyph(letter)) else GetGlyph(letter) + BlankColumn
  }

  /** `all_glyph`: the pieces of every letter, left to right. */
  function Pieces(text: string, monospace: bool): (g: Glyph)
    ensures WellFormed(g)
  {
    if text == [] then []
    else Pieces(text[..|text| - 1], monospace) + Piece(text[|text| - 1], monospace)
  }

  lemma Associative<T>(x: seq<T>, y: seq<T>, z: seq<T>)
    ensures (x + y) + z == x + (y + z)
  {
  }

  /** Splitting off the last letters of a text splits off their pieces. */
  lemma PiecesSplit(t: string, i: nat, monospace: bool)
    requires i == |t| - 1
    ensures Pieces(t, monospace) == Pieces(t[..i], monospace) + Pieces(t[i..], monospace)
    ensures t == t[..i] + t[i..]
  {
    assert t[i..][..0] == [];
  }

  /** The pieces of two texts side by side are the pieces of the joined
      text. */
  lemma {:induction false} PiecesAppend(a: string, b: string, monospace: bool)
    ensures Pieces(a + b, monospace) == Pieces(a, monospace) + Pieces(b, monospace)
    decreases |b|
  {
    if b == [] {
      assert a + b == a;
    } else {
      var c, d := b[..|b| - 1], b[|b| - 1..];
      assert a + b == (a + c) + d;
      PiecesSplit(a + b, |a + b| - 1, monospace);
      PiecesSplit(b, |b| - 1, monospace);
      PiecesAppend(a, c, monospace);
      Associative(Pieces(a, monospace), Pieces(c, monospace), Pieces(d, monospace));
    }
  }

  /** `all_glyph_spaced`: the pieces between MAX_X blank columns on each side. */
  function Strip(text: string, monospace: bool): (g: Glyph)
    ensures WellFormed(g) && |g| >= 2 * MaxX
  {
    Blanks(MaxX) + Pieces(text, monospace) + Blanks(MaxX)
  }

  /** Sum over the letters of (glyph width + 1). */
  function WidthSum(text: string): nat {
    if text == [] then 0 else WidthSum(text[..|text| - 1]) + |GetGlyph(text[|text| - 1])| + 1
  }

  lemma {:induction false} PiecesLength(text: string, monospace: bool)
    ensures |Pieces(text, monospace)| == if monospace then MaxX * |text| else WidthSum(text)
  {
    if text != [] {
      PiecesLength(text[..|text| - 1], monospace);
    }
  }

  /** The frames of one pass of `scroll`: every MAX_X-wide window of the
      strip, sliding one column at a time. */
  function ScrollFrames(strip: Glyph): (fs: seq<Glyph>)
    requires WellFormed(strip) && |strip| >= MaxX
    ensures |fs| == |strip| - MaxX + 1
    ensures forall k :: 0 <= k < |fs| ==> IsFrame(fs[k]) && fs[k] == strip[k..k + MaxX]
  {
    seq(|strip| - MaxX + 1, k requires 0 <= k < |strip| - MaxX + 1 => strip[k..k + MaxX])
  }

  /** The messages of one pass of `scroll(text)`: one per frame. */
  function ScrollMessages(text: string, monospace: bool): (ms: seq<Message>)
    ensures |ms| == |Strip(text, monospace)| - MaxX + 1
  {
    var fs := ScrollFrames(Strip(text, monospace));
    seq(|fs|, k requires 0 <= k < |fs| => DrawMessage(fs[k]))
  }

  /** The shape of one pass of `scroll`: the strip is 10 + sum(width + 1)
      columns, or 10 + 5 per letter when monospaced; there is one frame per
      start column, and the first and last frames are blank. */
  lemma ScrollShape(text: string, monospace: bool)
    ensures |Strip(text, monospace)| ==
      2 * MaxX + (if monospace then MaxX * |text| else WidthSum(text))
    ensures |ScrollFrames(Strip(text, monospace))| == |Strip(text, monospace)| - MaxX + 1
    ensures var fs := ScrollFrames(Strip(text, monospace));
      fs[0] == Blanks(MaxX) && fs[|fs| - 1] == Blanks(MaxX)
  {
    PiecesLength(text, monospace);
    var s, b := Strip(text, monospace), Blanks(MaxX);
    Ends(b, Pieces(text, monospace), b);
    var fs := ScrollFrames(s);
    assert fs[0] == s[..MaxX];
    assert fs[|fs| - 1] == s[|s| - MaxX..];
  }

  /** The first and last parts of a three-part sequence. */
  lemma Ends<T>(x: seq<T>, y: seq<T>, z: seq<T>)
    ensures |x + y + z| == |x| + |y| + |z|
    ensures (x + y + z)[..|x|] == x && (x + y + z)[|x| + |y|..] == z
  {
  }

  /** Drawing the window at `index` adds that window's message. */
  lemma ScrollOneMore(text: string, monospace: bool, index: nat)
    requires index + MaxX <= |Strip(text, monospace)|
    ensures IsFrame(Strip(text, monospace)[index..index + MaxX])
    ensures ScrollMessages(text, monospace)[..index + 1] ==
      ScrollMessages(text, monospace)[..index] + [DrawMessage(Strip(text, monospace)[index..index + MaxX])]
  {
    var ms := ScrollMessages(text, monospace);
    assert ms[..index + 1] == ms[..index] + [ms[index]];
  }

  /** The last window of the strip is blank, so it draws the all-dark grid. */
  lemma ScrollEndsDark(text: string, monospace: bool)
    ensures var s := Strip(text, monospace);
      IsFrame(s[|s| - MaxX..]) && Render(s[|s| - MaxX..]) == ZeroGrid()
  {
    ScrollShape(text, monospace);
    BlankFrameIsClear();
    var s := Strip(text, monospace);
    assert s[|s| - MaxX..] == ScrollFrames(s)[|s| - MaxX];
  }

  /** All the Pixel objects of a grid are different objects. */
  predicate Distinct(ps: seq<seq<Pixel>>) {
    forall x, y, x', y' ::
      (0 <= x < |ps| && 0 <= y < |ps[x]| && 0 <= x' < |ps| && 0 <= y' < |ps[x']| &&
       ps[x][y] == ps[x'][y']) ==> x == x' && y == y'
  }

  function PixelSet(ps: seq<seq<Pixel>>): set<object> {
    set x, y | 0 <= x < |ps| && 0 <= y < |ps[x]| :: ps[x][y] as object
  }

  /** The nested loop of `__init__`: MAX_X columns of MAX_Y new Pixels. */
  method NewPixelGrid() returns (ps: seq<seq<Pixel>>)
    ensures |ps| == MaxX && forall x :: 0 <= x < MaxX ==> |ps[x]| == MaxY
    ensures forall x, y :: 0 <= x < MaxX && 0 <= y < MaxY ==>
      fresh(ps[x][y]) && ps[x][y].brightness == 0
    ensures Distinct(ps)
  {
    ps := [];
    for x := 0 to MaxX
      invariant |ps| == x && forall i :: 0 <= i < x ==> |ps[i]| == MaxY
      invariant forall i, j :: 0 <= i < x && 0 <= j < MaxY ==>
        fresh(ps[i][j]) && ps[i][j].brightness == 0
      invariant Distinct(ps)
    {
      var column: seq<Pixel> := [];
      for y := 0 to MaxY
        invariant |column| == y
        invariant forall j :: 0 <= j < y ==> fresh(column[j]) && column[j].brightness == 0
        invariant forall j, j' :: 0 <= j < y && 0 <= j' < y && column[j] == column[j'] ==> j == j'
        invariant forall i, j, j' :: 0 <= i < x && 0 <= j < MaxY && 0 <= j' < y ==> ps[i][j] != column[j']
        invariant forall i, j :: 0 <= i < x && 0 <= j < MaxY ==> ps[i][j].brightness == 0
      {
        var p := new Pixel();
        column := column + [p];
      }
      ps := ps + [column];
    }
  }

  class Display {
    var isOn: bool
    var pixels: seq<seq<Pixel>>
    /** The brightness of every Pixel, by column then row. */
    ghost var Cells: Grid
    /** Every message passed to `_send_message`, oldest first. */
    ghost var Sent: seq<Message>
    ghost var Repr: set<object>

    ghost predicate Valid()
      reads this, Repr
    {
      Repr == {this} + PixelSet(pixels) &&
      |pixels| == MaxX && (forall x :: 0 <= x < MaxX ==> |pixels[x]| == MaxY) &&
      IsGrid(Cells) &&
      (forall x, y :: 0 <= x < MaxX && 0 <= y < MaxY ==>
        pixels[x][y] in Repr && pixels[x][y].Valid() && pixels[x][y].brightness == Cells[x][y]) &&
      Distinct(pixels)
    }

    constructor ()
      ensures Valid() && fresh(Repr)
      ensures Cells == ZeroGrid() && isOn && Sent == []
    {
      isOn := true;
      var ps := NewPixelGrid();
      pixels := ps;
      Cells := ZeroGrid();
      Sent := [];
      Repr := {this} + PixelSet(ps);
    }

    /** `_send_message`, rebound by the device to its broadcast. */
    method SendMessage(m: Message)
      modifies this
      ensures Sent == old(Sent) + [m]
      ensures isOn == old(isOn) && pixels == old(pixels) && Cells == old(Cells) && Repr == old(Repr)
    {
      Sent := Sent + [m];
    }

    /** `get_pixel`: Python indexing, so -5 .. 4 are accepted (negatives
        counting from the end) and anything else raises IndexError. */
    method GetPixel(x: int, y: int) returns (r: Result<int>)
      requires Valid()
      ensures r.Ok? <==> -MaxX <= x < MaxX && -MaxY <= y < MaxY
      ensures r.Ok? ==> r.value == Cells[x % MaxX][y % MaxY]
      ensures r.Err? ==> r.error == IndexError
    {
      var xi := ListIndex(x, MaxX);
      if xi.Err? {
        return Err(IndexError);
      }
      var yi := ListIndex(y, MaxY);
      if yi.Err? {
        return Err(IndexError);
      }
      var b := pixels[xi.value][yi.value].GetBrightness();
      r := Ok(b);
    }

    /** `set_brightness` on the pixel of cell (x, y) with a valid brightness. */
    method SetCell(x: nat, y: nat, b: int)
      requires Valid() && x < MaxX && y < MaxY && 0 <= b <= MaxBrightness
      modifies this, pixels[x][y]
      ensures Valid() && Repr == old(Repr) && pixels == old(pixels)
      ensures isOn == old(isOn) && Sent == old(Sent)
      ensures Cells == old(Cells)[x := old(Cells)[x][y := b]]
    {
      var r := pixels[x][y].SetBrightness(Int(b));
      Cells := Cells[x := Cells[x][y := b]];
    }

    /** `set_pixel`: indexes the pixel (IndexError), sets its brightness
        (TypeError or ValueError, nothing sent), then sends one message with
        the single entry ((x, y), value), with x and y as given. */
    method SetPixel(x: int, y: int, value: Value) returns (r: Outcome)
      requires Valid()
      modifies Repr
      ensures Valid() && Repr == old(Repr) && pixels == old(pixels) && isOn == old(isOn)
      ensures r == Done <==>
        -MaxX <= x < MaxX && -MaxY <= y < MaxY && CheckBrightness(value).Ok?
      ensures r.Raised? ==>
        r.error == if -MaxX <= x < MaxX && -MaxY <= y < MaxY
                   then CheckBrightness(value).error else IndexError
      ensures r == Done ==>
        Cells == old(Cells)[x % MaxX := old(Cells)[x % MaxX][y % MaxY := value.i]] &&
        Sent == old(Sent) + [PixelsMessage([PixelEntry(x, y, value.i)])]
      ensures r.Raised? ==> Cells == old(Cells) && Sent == old(Sent)
    {
      var xi := ListIndex(x, MaxX);
      if xi.Err? {
        return Raised(IndexError);
      }
      var yi := ListIndex(y, MaxY);
      if yi.Err? {
        return Raised(IndexError);
      }
      var i, j := xi.value, yi.value;
      r := pixels[i][j].SetBrightness(value);
      if r.Raised? {
        return;
      }
      Cells := Cells[i := Cells[i][j := value.i]];
      SendMessage(PixelsMessage([PixelEntry(x, y, value.i)]));
    }

    /** `clear`: every cell to 0, then one message listing all 25 cells. */
    method Clear()
      requires Valid()
      modifies Repr
      ensures Valid() && Repr == old(Repr) && pixels == old(pixels) && isOn == old(isOn)
      ensures Cells == ZeroGrid()
      ensures Sent == old(Sent) + [PixelsMessage(Entries(ZeroGrid()))]
    {
      var target := ZeroGrid();
      var entries: seq<PixelEntry> := [];
      for x := 0 to MaxX
        invariant Valid() && Repr == old(Repr) && pixels == old(pixels)
        invariant isOn == old(isOn) && Sent == old(Sent)
        invariant forall i, j :: 0 <= i < x && 0 <= j < MaxY ==> Cells[i][j] == target[i][j]
        invariant entries == Entries(target)[..x * MaxY]
      {
        for y := 0 to MaxY
          invariant Valid() && Repr == old(Repr) && pixels == old(pixels)
          invariant isOn == old(isOn) && Sent == old(Sent)
          invariant forall i, j :: 0 <= i < x && 0 <= j < MaxY ==> Cells[i][j] == target[i][j]
          invariant forall j :: 0 <= j < y ==> Cells[x][j] == target[x][j]
          invariant entries == Entries(target)[..x * MaxY + y]
        {
          var brightness := 0;
          assert target[x][y] == brightness;
          EntriesNext(target, x, y);
          SetCell(x, y, brightness);
          entries := entries + [PixelEntry(x, y, brightness)];
        }
      }
      assert forall i :: 0 <= i < MaxX ==> Cells[i] == target[i];
      assert entries == Entries(target);
      SendMessage(PixelsMessage(entries));
    }

    /** `_draw_glyph`: each cell lit to 9 where its frame cell is '#' and 0
        elsewhere, then one message listing all 25 cells. */
    method DrawGlyph(glyph: Glyph)
      requires Valid() && IsFrame(glyph)
      modifies Repr
      ensures Valid() && Repr == old(Repr) && pixels == old(pixels) && isOn == old(isOn)
      ensures Cells == Render(glyph)
      ensures Sent == old(Sent) + [DrawMessage(glyph)]
    {
      var target := Render(glyph);
      var entries: seq<PixelEntry> := [];
      for x := 0 to |glyph|
        invariant Valid() && Repr == old(Repr) && pixels == old(pixels)
        invariant isOn == old(isOn) && Sent == old(Sent)
        invariant forall i, j :: 0 <= i < x && 0 <= j < MaxY ==> Cells[i][j] == target[i][j]
        invariant entries == Entries(target)[..x * MaxY]
      {
        var column := glyph[x];
        for y := 0 to |column|
          invariant Valid() && Repr == old(Repr) && pixels == old(pixels)
          invariant isOn == old(isOn) && Sent == old(Sent)
          invariant forall i, j :: 0 <= i < x && 0 <= j < MaxY ==> Cells[i][j] == target[i][j]
          invariant forall j :: 0 <= j < y ==> Cells[x][j] == target[x][j]
          invariant entries == Entries(target)[..x * MaxY + y]
        {
          var brightness := if column[y] == '#' then 9 else 0;
          EntriesNext(target, x, y);
          SetCell(x, y, brightness);
          entries := entries + [PixelEntry(x, y, brightness)];
        }
      }
      assert forall i :: 0 <= i < MaxX ==> Cells[i] == target[i];
      assert entries == Entries(target);
      SendMessage(PixelsMessage(entries));
    }

    /** The body of `show`'s `while True` loop: each letter's glyph centred
        and drawn, one message each. With `loop=True` the source repeats
        exactly this pass forever. */
    method ShowPass(text: string)
      requires Valid()
      modifies Repr
      ensures Valid() && Repr == old(Repr) && pixels == old(pixels) && isOn == old(isOn)
      ensures Sent == old(Sent) + ShowMessages(text)
      ensures Cells == ShowGrid(text, old(Cells))
    {
      for i := 0 to |text|
        invariant Valid() && Repr == old(Repr) && pixels == old(pixels) && isOn == old(isOn)
        invariant Sent == old(Sent) + ShowMessages(text[..i])
        invariant Cells == ShowGrid(text[..i], old(Cells))
      {
        ShowLetter(text, i, old(Sent), old(Cells));
      }
      assert text[..|text|] == text;
    }

    /** One turn of the loop in `show`: draws letter i's centred glyph. */
    method ShowLetter(text: string, i: nat, ghost log: seq<Message>, ghost start: Grid)
      requires Valid() && i < |text| && Sent == log + ShowMessages(text[..i])
      modifies Repr
      ensures Valid() && Repr == old(Repr) && pixels == old(pixels) && isOn == old(isOn)
      ensures Sent == log + ShowMessages(text[..i + 1])
      ensures Cells == ShowGrid(text[..i + 1], start)
    {
      ShowOneMore(text, i, start);
      var glyph := GetGlyph(text[i]);
      var frame := Monospace(glyph);
      assert frame == ShowFrame(text[i]);
      ghost var message := DrawMessage(frame);
      LogGrows(log, ShowMessages(text[..i]), ShowMessages(text[..i + 1]), message);
      DrawGlyph(frame);
    }

    /** `show(text)` with `loop=False`: one pass, then an all-dark message
        when `clear` is set. */
    method Show(text: string, clear: bool)
      requires Valid()
      modifies Repr
      ensures Valid() && Repr == old(Repr) && pixels == old(pixels) && isOn == old(isOn)
      ensures Sent == old(Sent) + ShowMessages(text) +
        (if clear then [PixelsMessage(Entries(ZeroGrid()))] else [])
      ensures Cells == if clear then ZeroGrid() else ShowGrid(text, old(Cells))
    {
      ShowPass(text);
      if clear {
        Clear();
      }
    }

    /** One pass of `scroll(text)` (the `loop=False` case): the strip is
        built, then every MAX_X-wide window is drawn left to right, one
        message each; the last window is blank, so the display ends dark. */
    method Scroll(text: string, monospace: bool)
      requires Valid()
      modifies Repr
      ensures Valid() && Repr == old(Repr) && pixels == old(pixels) && isOn == old(isOn)
      ensures Sent == old(Sent) + ScrollMessages(text, monospace)
      ensures Cells == ZeroGrid()
    {
      var allGlyphSpaced := Strip(text, monospace);
      ghost var messages := ScrollMessages(text, monospace);
      for index := 0 to |allGlyphSpaced| - MaxX + 1
        invariant Valid() && Repr == old(Repr) && pixels == old(pixels) && isOn == old(isOn)
        invariant Sent == old(Sent) + messages[..index]
        invariant index > 0 ==>
          (IsFrame(allGlyphSpaced[index - 1..index - 1 + MaxX]) &&
           Cells == Render(allGlyphSpaced[index - 1..index - 1 + MaxX]))
      {
        var frame := allGlyphSpaced[index..index + MaxX];
        ScrollOneMore(text, monospace, index);
        ghost var message := DrawMessage(frame);
        LogGrows(old(Sent), messages[..index], messages[..index + 1], message);
        DrawGlyph(frame);
      }
      assert messages[..|messages|] == messages;
      ScrollEndsDark(text, monospace);
    }

    /** `_set_on_off`: stores the flag and sends one MSG_ON_OFF message with
        the new value. */
    method SetOnOff(on: bool)
      modifies this
      ensures isOn == on
      ensures Sent == old(Sent) + [OnOffMessage(on)]
      ensures pixels == old(pixels) && Cells == old(Cells) && Repr == old(Repr)
    {
      isOn := on;
      SendMessage(OnOffMessage(isOn));
    }

    method On()
      modifies this
      ensures isOn
      ensures Sent == old(Sent) + [OnOffMessage(true)]
      ensures pixels == old(pixels) && Cells == old(Cells) && Repr == old(Repr)
    {
      SetOnOff(true);
    }

    method Off()
      modifies this
      ensures !isOn
      ensures Sent == old(Sent) + [OnOffMessage(false)]
      ensures pixels == old(pixels) && Cells == old(Cells) && Repr == old(Repr)
    {
      SetOnOff(false);
    }

    method IsOn() returns (r: bool)
      ensures r == isOn
    {
      r := isOn;
    }

    /** `_reset`: runs `__init__` again: new dark Pixels, power on. No message
        is sent. */
    method Reset()
      requires Valid()
      modifies this
      ensures Valid() && fresh(Repr - {this})
      ensures Cells == ZeroGrid() && isOn && Sent == old(Sent)
    {
      isOn := true;
      var ps := NewPixelGrid();
      pixels := ps;
      Cells := ZeroGrid();
      Repr := {this} + PixelSet(ps);
    }

    /** `_get_initial_data`: every cell in x-major order and the power flag;
        nothing is sent and nothing changes. */
    method GetInitialData() returns (entries: seq<PixelEntry>, on: bool)
      requires Valid()
      ensures entries == Entries(Cells) && on == isOn
    {
      entries := [];
      for x := 0 to MaxX
        invariant entries == Entries(Cells)[..x * MaxY]
      {
        for y := 0 to MaxY
          invariant entries == Entries(Cells)[..x * MaxY + y]
        {
          var brightness := pixels[x][y].GetBrightness();
          entries := entries + [PixelEntry(x, y, brightness)];
        }
      }
      on := isOn;
    }
  }
}
