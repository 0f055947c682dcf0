/**
 * Text mode: a reference bitmap is cut into glyphs at sentinel pixels and
 * the glyphs of the requested text are laid side by side into one grid.
 *
 * The builder reads the reference image column by column, top to bottom.
 * Every pixel adds one value to the glyph under construction: its alpha, or
 * a closing 0 when the pixel is a sentinel, after which the glyph is bound
 * to the next character of `Charset` and a new glyph starts.
 */
module Glyphs {
  import opened Common

  /** The characters the reference image holds glyphs for, in image order. */
  const Charset: seq<char> :=
    [' ', 'a', 'b', 'c', 'd', 'e', 'f', 'g', 'h', 'i', 'j', 'k', 'l', 'm',
     'n', 'o', 'p', 'q', 'r', 's', 't', 'u', 'v', 'w', 'x', 'y', 'z',
     '0', '1', '2', '3', '4', '5', '6', '7', '8', '9', '!', '?']

  /** The position of a character of `Charset` in it. */
  function Rank(c: char): int {
    if c == ' ' then 0
    else if 'a' <= c <= 'z' then (c as int) - ('a' as int) + 1
    else if '0' <= c <= '9' then (c as int) - ('0' as int) + 27
    else if c == '!' then 37
    else 38
  }

  lemma CharsetRanked()
    ensures |Charset| == 39
    ensures forall i :: 0 <= i < |Charset| ==> Rank(Charset[i]) == i
  {
  }

  /** No character is bound twice, so each binding adds a new key. */
  lemma CharsetDistinct()
    ensures |Charset| == 39
    ensures forall i, j :: 0 <= i < j < |Charset| ==> Charset[i] != Charset[j]
  {
    CharsetRanked();
  }

  /**
   * A glyph boundary: full red and full alpha. Green and blue are not
   * looked at, so an opaque white pixel is a sentinel too.
   */
  predicate IsSentinel(p: Pixel) {
    p.red == 255 && p.alpha == 255
  }

  /** The value a scanned pixel contributes to the glyph buffer. */
  function Sample(p: Pixel): Byte {
    if IsSentinel(p) then 0 else p.alpha
  }

  function Samples(ps: seq<Pixel>): (r: seq<Byte>)
    ensures |r| == |ps|
    ensures forall i :: 0 <= i < |ps| ==> r[i] == Sample(ps[i])
  {
    seq(|ps|, i requires 0 <= i < |ps| => Sample(ps[i]))
  }

  /** Column x of the image, top to bottom. */
  function Column(img: Image, x: nat): (c: seq<Pixel>)
    requires img.Valid() && x < img.width
    ensures |c| == |img.rows|
    ensures forall y :: 0 <= y < |img.rows| ==> c[y] == img.rows[y][x]
  {
    seq(|img.rows|, y requires 0 <= y < |img.rows| => img.rows[y][x])
  }

  /** The pixels of the first `cols` columns in scanning order. */
  function Scanned(img: Image, cols: nat): seq<Pixel>
    requires img.Valid() && cols <= img.width
  {
    if cols == 0 then [] else Scanned(img, cols - 1) + Column(img, cols - 1)
  }

  function Sentinels(ps: seq<Pixel>): nat {
    if ps == [] then 0
    else Sentinels(ps[..|ps| - 1]) + (if IsSentinel(ps[|ps| - 1]) then 1 else 0)
  }

  /** The number of sentinels in the columns left of column x. */
  function SentinelsBefore(img: Image, x: nat): nat
    requires img.Valid() && x <= img.width
  {
    Sentinels(Scanned(img, x))
  }

  /** Builder state: the glyphs closed so far, in order, and the open buffer. */
  datatype Scan = Scan(glyphs: seq<seq<Byte>>, current: seq<Byte>)

  /** One pixel of the scan: a sentinel closes the buffer with a 0. */
  function Feed(s: Scan, p: Pixel): Scan {
    if IsSentinel(p) then Scan(s.glyphs + [s.current + [0]], [])
    else Scan(s.glyphs, s.current + [p.alpha])
  }

  /** The reference segmentation of a pixel stream into glyphs. */
  function Split(ps: seq<Pixel>): Scan {
    if ps == [] then Scan([], []) else Feed(Split(ps[..|ps| - 1]), ps[|ps| - 1])
  }

  function Flatten(gs: seq<seq<Byte>>): seq<Byte> {
    if gs == [] then [] else Flatten(gs[..|gs| - 1]) + gs[|gs| - 1]
  }

  lemma SplitSnoc(ps: seq<Pixel>, p: Pixel)
    ensures Split(ps + [p]) == Feed(Split(ps), p)
    ensures Sentinels(ps + [p]) == Sentinels(ps) + (if IsSentinel(p) then 1 else 0)
  {
  }

  /** Segmenting loses and invents nothing: glyphs then buffer spell the samples. */
  lemma {:induction false} SplitConcat(ps: seq<Pixel>)
    ensures Flatten(Split(ps).glyphs) + Split(ps).current == Samples(ps)
  {
    if ps != [] {
      var init, p := ps[..|ps| - 1], ps[|ps| - 1];
      assert ps == init + [p];
      SplitConcat(init);
      var s := Split(init);
      if IsSentinel(p) {
        assert (s.glyphs + [s.current + [0]])[..|s.glyphs|] == s.glyphs;
      }
      assert Samples(ps) == Samples(init) + [Sample(p)];
    }
  }

  /** Every scanned pixel adds exactly one value to a glyph or to the buffer. */
  lemma SplitLength(ps: seq<Pixel>)
    ensures |Flatten(Split(ps).glyphs)| + |Split(ps).current| == |ps|
  {
    SplitConcat(ps);
  }

  /**
   * One glyph per sentinel, each closed by a 0, and a buffer left empty
   * right after a sentinel.
   */
  lemma {:induction false} SplitShape(ps: seq<Pixel>)
    ensures |Split(ps).glyphs| == Sentinels(ps)
    ensures forall i :: 0 <= i < |Split(ps).glyphs| ==>
              |Split(ps).glyphs[i]| > 0 && Split(ps).glyphs[i][|Split(ps).glyphs[i]| - 1] == 0
    ensures ps != [] && IsSentinel(ps[|ps| - 1]) ==> Split(ps).current == []
  {
    if ps != [] {
      SplitShape(ps[..|ps| - 1]);
    }
  }

  /** Glyphs once closed are never changed by later pixels. */
  lemma {:induction false} SplitExtends(ps: seq<Pixel>, qs: seq<Pixel>)
    ensures Split(ps).glyphs <= Split(ps + qs).glyphs
  {
    if qs != [] {
      var init, q := qs[..|qs| - 1], qs[|qs| - 1];
      assert ps + qs == (ps + init) + [q];
      SplitExtends(ps, init);
      SplitSnoc(ps + init, q);
    } else {
      assert ps + qs == ps;
    }
  }

  lemma {:induction false} SentinelsPrefix(ps: seq<Pixel>, qs: seq<Pixel>)
    ensures Sentinels(ps) <= Sentinels(ps + qs)
  {
    if qs != [] {
      var init, q := qs[..|qs| - 1], qs[|qs| - 1];
      assert ps + qs == (ps + init) + [q];
      SentinelsPrefix(ps, init);
      SplitSnoc(ps + init, q);
    } else {
      assert ps + qs == ps;
    }
  }

  /** Scanning more columns never meets fewer sentinels. */
  lemma {:induction false} SentinelsBeforeMonotone(img: Image, a: nat, b: nat)
    requires img.Valid() && a <= b <= img.width
    ensures SentinelsBefore(img, a) <= SentinelsBefore(img, b)
  {
    if a < b {
      SentinelsBeforeMonotone(img, a, b - 1);
      SentinelsPrefix(Scanned(img, b - 1), Column(img, b - 1));
    }
  }

  /** Column x is where the builder meets a sentinel with every character bound. */
  ghost predicate Overflows(img: Image, x: nat)
    requires img.Valid() && x < img.width
  {
    SentinelsBefore(img, x) < |Charset| < SentinelsBefore(img, x + 1)
  }

  /**
   * Once the columns scanned so far hold every glyph, no later column can
   * overflow; with the earlier columns clear, no column overflows at all.
   */
  lemma NoOverflowPastStop(img: Image, stop: nat)
    requires img.Valid() && stop <= img.width
    requires stop == img.width || SentinelsBefore(img, stop) >= |Charset|
    requires forall i :: 0 <= i < stop ==> !Overflows(img, i)
    ensures forall i :: 0 <= i < img.width ==> !Overflows(img, i)
  {
    forall i | stop <= i < img.width
      ensures !Overflows(img, i)
    {
      SentinelsBeforeMonotone(img, stop, i);
    }
  }

  /**
   * `table` maps the first |gs| characters of `Charset`, and only those, to
   * the glyphs `gs` in order.
   */
  ghost predicate Binds(table: map<char, seq<Byte>>, gs: seq<seq<Byte>>) {
    && |gs| <= |Charset|
    && table.Keys == (set i | 0 <= i < |gs| :: Charset[i])
    && forall i :: 0 <= i < |gs| ==> Charset[i] in table && table[Charset[i]] == gs[i]
  }

  lemma BindsNext(table: map<char, seq<Byte>>, gs: seq<seq<Byte>>, g: seq<Byte>)
    requires Binds(table, gs) && |gs| < |Charset|
    ensures Binds(table[Charset[|gs|] := g], gs + [g])
  {
    CharsetDistinct();
    var t := table[Charset[|gs|] := g];
    var gs' := gs + [g];
    assert t.Keys == (set i | 0 <= i < |gs'| :: Charset[i]) by {
      forall c | c in t.Keys ensures c in (set i | 0 <= i < |gs'| :: Charset[i]) {
        if c != Charset[|gs|] {
          var i :| 0 <= i < |gs| && Charset[i] == c;
          assert Charset[i] == c && 0 <= i < |gs'|;
        } else {
          assert Charset[|gs|] == c && 0 <= |gs| < |gs'|;
        }
      }
    }
  }

  /** A table bound to a glyph list is determined by that list. */
  lemma BindsUnique(t1: map<char, seq<Byte>>, t2: map<char, seq<Byte>>, gs: seq<seq<Byte>>)
    requires Binds(t1, gs) && Binds(t2, gs)
    ensures t1 == t2
  {
    forall c | c in t1.Keys
      ensures t1[c] == t2[c]
    {
      var i :| 0 <= i < |gs| && Charset[i] == c;
    }
  }

  /**
   * The builder stops after `cols` columns: no column before it began with
   * every character bound, and it is the image's end or a column start
   * with all of `Charset` bound.
   */
  ghost predicate Reached(img: Image, cols: nat)
    requires img.Valid()
  {
    && cols <= img.width
    && (forall x :: 0 <= x < cols ==> SentinelsBefore(img, x) < |Charset|)
    && (cols == img.width || SentinelsBefore(img, cols) == |Charset|)
  }

  /** There is only one column where the builder stops. */
  lemma ReachedUnique(img: Image, c1: nat, c2: nat)
    requires img.Valid() && Reached(img, c1) && Reached(img, c2)
    ensures c1 == c2
  {
  }

  /** One pixel of the builder keeps the table bound to the reference segmentation. */
  lemma Advance(ps: seq<Pixel>, p: Pixel, table: map<char, seq<Byte>>, done: seq<seq<Byte>>,
                current: seq<Byte>)
    requires Split(ps) == Scan(done, current) && |done| == Sentinels(ps) && Binds(table, done)
    requires IsSentinel(p) ==> |done| < |Charset|
    ensures Split(ps + [p]) == Feed(Scan(done, current), p)
    ensures Sentinels(ps + [p]) == |Split(ps + [p]).glyphs|
    ensures IsSentinel(p) ==> Binds(table[Charset[|done|] := current + [0]], done + [current + [0]])
  {
    SplitSnoc(ps, p);
    if IsSentinel(p) {
      BindsNext(table, done, current + [0]);
    }
  }

  /** A sentinel met in the middle of `b` is counted in the whole of `a + b`. */
  lemma SentinelsWithin(a: seq<Pixel>, b: seq<Pixel>, y: nat)
    requires y < |b| && IsSentinel(b[y])
    ensures Sentinels(a + b[..y]) < Sentinels(a + b)
  {
    assert a + b[..y + 1] == (a + b[..y]) + [b[y]];
    SplitSnoc(a + b[..y], b[y]);
    assert a + b == (a + b[..y + 1]) + b[y + 1..];
    SentinelsPrefix(a + b[..y + 1], b[y + 1..]);
  }

  /** A sentinel at row y of column x, with every character bound, overflows there. */
  lemma OverflowInColumn(img: Image, x: nat, y: nat)
    requires img.Valid() && x < img.width && y < |img.rows|
    requires IsSentinel(img.rows[y][x])
    requires SentinelsBefore(img, x) < |Charset| == Sentinels(Scanned(img, x) + Column(img, x)[..y])
    ensures Overflows(img, x)
  {
    SentinelsWithin(Scanned(img, x), Column(img, x), y);
  }

  /**
   * The glyph table builder. Column starts are the only place where it
   * stops once every character is bound, so a further sentinel inside the
   * same column indexes past the end of `Charset`; that run stops with
   * CharsetExhausted. `cols` is the number of columns scanned.
   */
  method BuildGlyphs(img: Image) returns (table: Result<map<char, seq<Byte>>>, ghost cols: nat)
    requires img.Valid()
    ensures cols <= img.width
    ensures forall x :: 0 <= x < cols ==> SentinelsBefore(img, x) < |Charset|
    ensures table.Err? <==> exists x :: 0 <= x < img.width && Overflows(img, x)
    ensures table.Err? ==> table.error == CharsetExhausted
    ensures table.Ok? ==> cols == img.width || SentinelsBefore(img, cols) == |Charset|
    ensures table.Ok? ==> Binds(table.value, Split(Scanned(img, cols)).glyphs)
  {
    var glyphs: map<char, seq<Byte>> := map[];
    var current: seq<Byte> := [];
    var n := 0;
    ghost var done: seq<seq<Byte>> := [];
    var x := 0;
    while x < img.width
      invariant x <= img.width
      invariant Split(Scanned(img, x)) == Scan(done, current)
      invariant n == |done| == SentinelsBefore(img, x) <= |Charset|
      invariant Binds(glyphs, done)
      invariant forall i :: 0 <= i < x ==> SentinelsBefore(img, i) < |Charset|
      invariant forall i :: 0 <= i < x ==> !Overflows(img, i)
    {
      if n >= |Charset| {
        break;
      }
      var overflow;
      overflow, glyphs, current, n, done := ScanColumn(img, x, glyphs, current, n, done);
      if overflow {
        cols := x;
        return Err(CharsetExhausted), cols;
      }
      x := x + 1;
    }
    cols := x;
    NoOverflowPastStop(img, x);
    return Ok(glyphs), cols;
  }

  /**
   * One column of the builder, top to bottom. `overflow` reports a sentinel
   * met when every character of `Charset` is already bound.
   */
  method ScanColumn(img: Image, x: nat, glyphs: map<char, seq<Byte>>, current: seq<Byte>, n: nat,
                    ghost done: seq<seq<Byte>>)
    returns (overflow: bool, glyphs': map<char, seq<Byte>>, current': seq<Byte>, n': nat,
             ghost done': seq<seq<Byte>>)
    requires img.Valid() && x < img.width
    requires Split(Scanned(img, x)) == Scan(done, current)
    requires n == |done| == SentinelsBefore(img, x) < |Charset|
    requires Binds(glyphs, done)
    ensures overflow <==> Overflows(img, x)
    ensures !overflow ==> Split(Scanned(img, x + 1)) == Scan(done', current')
    ensures !overflow ==> n' == |done'| == SentinelsBefore(img, x + 1) <= |Charset|
    ensures !overflow ==> Binds(glyphs', done')
  {
    ghost var before := Scanned(img, x);
    ghost var column := Column(img, x);
    ghost var prefix := before;
    glyphs', current', n', done' := glyphs, current, n, done;
    var y := 0;
    assert before + column[..0] == before;
    while y < |img.rows|
      invariant y <= |img.rows|
      invariant prefix == before + column[..y]
      invariant Split(prefix) == Scan(done', current')
      invariant n' == |done'| == Sentinels(prefix) <= |Charset|
      invariant Binds(glyphs', done')
    {
      var p := img.rows[y][x];
      assert before + column[..y + 1] == prefix + [p];
      if p.red == 255 && p.alpha == 255 {
        if n' == |Charset| {
          OverflowInColumn(img, x, y);
          return true, glyphs', current', n', done';
        }
        Advance(prefix, p, glyphs', done', current');
        current' := current' + [0];
        glyphs' := glyphs'[Charset[n'] := current'];
        done' := done' + [current'];
        current' := [];
        n' := n' + 1;
      } else {
        Advance(prefix, p, glyphs', done', current');
        current' := current' + [p.alpha];
      }
      prefix := prefix + [p];
      y := y + 1;
    }
    assert column[..y] == column;
    assert Scanned(img, x + 1) == prefix;
    overflow := false;
  }

  /** The glyph a character adds to the grid: nothing when it has none. */
  function GlyphOf(table: map<char, seq<Byte>>, c: char): seq<Byte> {
    if c in table then table[c] else []
  }

  /** The grid for `text`: the glyphs of its characters, left to right. */
  function Composed(table: map<char, seq<Byte>>, text: string): seq<Byte> {
    if text == [] then []
    else Composed(table, text[..|text| - 1]) + GlyphOf(table, text[|text| - 1])
  }

  /** The characters of `text` without a glyph, each reported once per occurrence. */
  function Unmapped(table: map<char, seq<Byte>>, text: string): string {
    if text == [] then []
    else Unmapped(table, text[..|text| - 1]) + (if text[|text| - 1] in table then [] else [text[|text| - 1]])
  }

  /** Text composition; `skipped` is the list of characters warned about. */
  method Compose(table: map<char, seq<Byte>>, text: string) returns (grid: seq<Byte>, skipped: string)
    ensures grid == Composed(table, text)
    ensures skipped == Unmapped(table, text)
  {
    grid, skipped := [], [];
    for k := 0 to |text|
      invariant grid == Composed(table, text[..k])
      invariant skipped == Unmapped(table, text[..k])
    {
      var c := text[k];
      assert text[..k + 1][..k] == text[..k];
      if !(c in table) {
        skipped := skipped + [c];
        continue;
      }
      grid := grid + table[c];
    }
    assert text[..|text|] == text;
  }

  /** Composition distributes over concatenation of texts. */
  lemma {:induction false} ComposedAppend(table: map<char, seq<Byte>>, s: string, t: string)
    ensures Composed(table, s + t) == Composed(table, s) + Composed(table, t)
    ensures Unmapped(table, s + t) == Unmapped(table, s) + Unmapped(table, t)
  {
    if t == [] {
      assert s + t == s;
    } else {
      var init, c := t[..|t| - 1], t[|t| - 1];
      assert s + t == (s + init) + [c];
      assert (s + t)[..|s + t| - 1] == s + init;
      ComposedAppend(table, s, init);
    }
  }

  /** A character without a glyph adds nothing to the grid and does not stop the run. */
  lemma SkipUnmapped(table: map<char, seq<Byte>>, s: string, c: char, t: string)
    requires c !in table
    ensures Composed(table, s + [c] + t) == Composed(table, s + t)
    ensures Unmapped(table, s + [c] + t) == Unmapped(table, s) + [c] + Unmapped(table, t)
  {
    ComposedAppend(table, s + [c], t);
    ComposedAppend(table, s, [c]);
    ComposedAppend(table, s, t);
    assert [c][..0] == [];
  }

  /** A character is warned about exactly when it occurs in the text and has no glyph. */
  lemma {:induction false} UnmappedExactly(table: map<char, seq<Byte>>, text: string, c: char)
    ensures c in Unmapped(table, text) <==> c in text && c !in table
  {
    if text != [] {
      var init := text[..|text| - 1];
      assert text == init + [text[|text| - 1]];
      UnmappedExactly(table, init, c);
    }
  }

  /**
   * With glyphs of exactly 7 values, each character with a glyph adds one
   * whole column and the others add none.
   */
  lemma {:induction false} ComposedWidth(table: map<char, seq<Byte>>, text: string)
    requires forall c :: c in table ==> |table[c]| == 7
    ensures |Composed(table, text)| == 7 * (|text| - |Unmapped(table, text)|)
    ensures GridWidth(Composed(table, text)) == |text| - |Unmapped(table, text)|
  {
    if text != [] {
      ComposedWidth(table, text[..|text| - 1]);
    }
  }
}
