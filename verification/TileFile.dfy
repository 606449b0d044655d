/** The second hextile decoder, which reads a rectangle from a file in windows of at most one
    tile's greatest size. It decodes a tile only when all of it is there, keeps its place in
    statics, and reads an incomplete tile's colours again on the next call. */
module TileFile {
  import opened Bytes
  import opened Panels
  import opened Hextile

  // ----- Parsing one tile -----

  /** In canonical form a value that is not sent is zero. Every tile on the wire has one. */
  predicate Canonical(t: Tile)
  {
    t.Coded? ==>
      && (!BackgroundBit(t.sub) ==> t.bg == 0)
      && (!ForegroundBit(t.sub) ==> t.fg == 0)
      && (!ColouredBit(t.sub) ==> forall k :: 0 <= k < |t.subrects| ==> t.subrects[k].colour == 0)
  }

  /** A pixel of d bytes, low byte first. */
  function PixelFrom(d: depth, b: seq<byte>, i: nat): word
    requires i + d <= |b|
  {
    if d == 1 then b[i] else Word(b[i + 1], b[i])
  }

  function PixelsFrom(d: depth, b: seq<byte>, i: nat, n: nat): (px: seq<word>)
    requires i + Scaled(d, n) <= |b|
    ensures |px| == n
    decreases n
  {
    if n == 0 then [] else [PixelFrom(d, b, i)] + PixelsFrom(d, b, i + d, n - 1)
  }

  function Scaled(d: depth, n: nat): nat
  {
    if d == 1 then n else 2 * n
  }

  function SubrectsSize(d: depth, coloured: bool, n: nat): nat
  {
    if !coloured then 2 * n else if d == 1 then 3 * n else 4 * n
  }

  /** The extract macros. */
  function SubrectFrom(d: depth, coloured: bool, b: seq<byte>, i: nat): Subrect
    requires i + SubrectSize(d, coloured) <= |b|
  {
    var j := if coloured then i + d else i;
    Subrect(if coloured then PixelFrom(d, b, i) else 0, b[j] / 16, b[j] % 16, b[j + 1] / 16 + 1, b[j + 1] % 16 + 1)
  }

  function SubrectsFrom(d: depth, coloured: bool, b: seq<byte>, i: nat, n: nat): (subs: seq<Subrect>)
    requires i + SubrectsSize(d, coloured, n) <= |b|
    ensures |subs| == n
    ensures forall k :: 0 <= k < n ==> 0 < subs[k].w && 0 < subs[k].h
    decreases n
  {
    if n == 0 then []
    else [SubrectFrom(d, coloured, b, i)] + SubrectsFrom(d, coloured, b, i + SubrectSize(d, coloured), n - 1)
  }

  /** The positions of the fields of a tile that is not raw. */
  function BackgroundEnd(d: depth, sub: byte): nat
  {
    if BackgroundBit(sub) then 1 + d else 1
  }

  function ForegroundEnd(d: depth, sub: byte): nat
  {
    if ForegroundBit(sub) then BackgroundEnd(d, sub) + d else BackgroundEnd(d, sub)
  }

  function CountEnd(d: depth, sub: byte): nat
  {
    if SubrectsBit(sub) then ForegroundEnd(d, sub) + 1 else ForegroundEnd(d, sub)
  }

  predicate InBuffer(subs: seq<Subrect>)
  {
    forall k :: 0 <= k < |subs| ==> subs[k].x + subs[k].w <= 16 && subs[k].y + subs[k].h <= 16
  }

  datatype Parsed =
    | Complete(tile: Tile, size: nat)
    | Incomplete
    | OutOfBuffer

  function ParseTile(d: depth, b: seq<byte>, w: byte, h: byte): (p: Parsed)
    ensures p.Complete? ==> 0 < p.size <= |b| && ValidTile(2, p.tile, w, h) && p.tile.sub == b[0]
  {
    if b == [] then Incomplete
    else if RawBit(b[0]) then
      var n := Cells(w, h);
      if |b| < 1 + Scaled(d, n) then Incomplete
      else Complete(Raw(b[0], PixelsFrom(d, b, 1, n)), 1 + Scaled(d, n))
    else
      var c := CountEnd(d, b[0]);
      if |b| < c then Incomplete
      else
        var count := if SubrectsBit(b[0]) then b[c - 1] else 0;
        var size := c + SubrectsSize(d, ColouredBit(b[0]), count);
        if |b| < size then Incomplete
        else
          var subs := SubrectsFrom(d, ColouredBit(b[0]), b, c, count);
          if InBuffer(subs) then
            Complete(Coded(b[0],
                           if BackgroundBit(b[0]) then PixelFrom(d, b, 1) else 0,
                           if ForegroundBit(b[0]) then PixelFrom(d, b, BackgroundEnd(d, b[0])) else 0,
                           subs), size)
          else OutOfBuffer
  }

  lemma {:induction false} PixelsFromEncoded(d: depth, px: seq<word>, a: seq<byte>, rest: seq<byte>)
    requires forall k :: 0 <= k < |px| ==> Fits(d, px[k])
    ensures PixelsFrom(d, a + EncodePixels(d, px) + rest, |a|, |px|) == px
    decreases |px|
  {
    hide PixelFrom, EncodePixel;
    if px != [] {
      var e := EncodePixel(d, px[0]);
      var more := EncodePixels(d, px[1..]);
      Regroup(a, e, more, rest);
      Regroup([], a + e, more, rest);
      PixelsFromEncoded(d, px[1..], a + e, rest);
      PixelFromEncoded(d, px[0], a, more + rest);
    }
  }

  lemma PixelFromEncoded(d: depth, v: word, a: seq<byte>, rest: seq<byte>)
    requires Fits(d, v)
    ensures PixelFrom(d, a + EncodePixel(d, v) + rest, |a|) == v
  {
    var b := a + EncodePixel(d, v) + rest;
    assert b[|a|] == EncodePixel(d, v)[0];
    if d == 2 {
      assert b[|a| + 1] == EncodePixel(d, v)[1];
    }
  }

  lemma SubrectFromEncoded(d: depth, coloured: bool, q: Subrect, a: seq<byte>, rest: seq<byte>)
    requires ValidSubrect(d, q) && (!coloured ==> q.colour == 0)
    ensures SubrectFrom(d, coloured, a + EncodeSubrect(d, coloured, q) + rest, |a|) == q
  {
    hide PixelFrom, EncodePixel;
    var head := if coloured then EncodePixel(d, q.colour) else [];
    var pair := [PackXY(q.x, q.y), PackWH(q.w, q.h)];
    var b := a + EncodeSubrect(d, coloured, q) + rest;
    var j := |a| + |head|;
    Regroup(a, head, pair, rest);
    assert b == (a + head) + (pair + rest);
    assert b[j] == pair[0] && b[j + 1] == pair[1];
    if coloured {
      PixelFromEncoded(d, q.colour, a, pair + rest);
    }
  }

  lemma {:induction false} SubrectsFromEncoded(d: depth, coloured: bool, subs: seq<Subrect>, a: seq<byte>,
                                               rest: seq<byte>)
    requires ValidSubrects(d, subs) && (!coloured ==> forall k :: 0 <= k < |subs| ==> subs[k].colour == 0)
    ensures SubrectsFrom(d, coloured, a + EncodeSubrects(d, coloured, subs) + rest, |a|, |subs|) == subs
    decreases |subs|
  {
    hide SubrectFrom, EncodeSubrect;
    if subs != [] {
      var e := EncodeSubrect(d, coloured, subs[0]);
      var more := EncodeSubrects(d, coloured, subs[1..]);
      Regroup(a, e, more, rest);
      Regroup([], a + e, more, rest);
      SubrectsFromEncoded(d, coloured, subs[1..], a + e, rest);
      SubrectFromEncoded(d, coloured, subs[0], a, more + rest);
    }
  }

  lemma ScaledIsLength(d: depth, px: seq<word>)
    requires forall k :: 0 <= k < |px| ==> Fits(d, px[k])
    ensures |EncodePixels(d, px)| == Scaled(d, |px|)
  {
  }

  lemma RawRoundTrip(d: depth, t: Tile, w: byte, h: byte, rest: seq<byte>)
    requires ValidTile(d, t, w, h) && t.Raw?
    ensures ParseTile(d, EncodeTile(d, t, w, h) + rest, w, h) == Complete(t, |EncodeTile(d, t, w, h)|)
  {
    var b := EncodeTile(d, t, w, h) + rest;
    ScaledIsLength(d, t.pixels);
    PixelsFromEncoded(d, t.pixels, [t.sub], rest);
    assert b == [t.sub] + EncodePixels(d, t.pixels) + rest;
  }

  /** The optional fields one by one. */
  function BackgroundField(d: depth, t: Tile): (e: seq<byte>)
    requires t.Coded? && Fits(d, t.bg)
    ensures |e| == BackgroundEnd(d, t.sub) - 1
  {
    if BackgroundBit(t.sub) then EncodePixel(d, t.bg) else []
  }

  function ForegroundField(d: depth, t: Tile): (e: seq<byte>)
    requires t.Coded? && Fits(d, t.fg)
    ensures |e| == ForegroundEnd(d, t.sub) - BackgroundEnd(d, t.sub)
  {
    if ForegroundBit(t.sub) then EncodePixel(d, t.fg) else []
  }

  function CountField(d: depth, t: Tile): (e: seq<byte>)
    requires t.Coded? && |t.subrects| <= 255
    ensures |e| == CountEnd(d, t.sub) - ForegroundEnd(d, t.sub)
  {
    if SubrectsBit(t.sub) then [|t.subrects|] else []
  }

  lemma FieldsApart(d: depth, t: Tile, rest: seq<byte>)
    requires t.Coded? && Fits(d, t.bg) && Fits(d, t.fg) && |t.subrects| <= 255
    ensures var b := [t.sub] + EncodeFields(d, t) + rest;
            var bgs, fgs, cnt := BackgroundField(d, t), ForegroundField(d, t), CountField(d, t);
            && b == ([t.sub] + bgs) + ((fgs + cnt) + rest)
            && b == (([t.sub] + bgs) + fgs) + (cnt + rest)
    ensures |EncodeFields(d, t)| == CountEnd(d, t.sub) - 1
  {
    var bgs, fgs, cnt := BackgroundField(d, t), ForegroundField(d, t), CountField(d, t);
    assert EncodeFields(d, t) == (bgs + fgs) + cnt;
    hide BackgroundField, ForegroundField, CountField, EncodeFields;
    Regroup([], bgs, fgs, cnt);
    Regroup([t.sub], bgs, fgs + cnt, rest);
    Regroup([], fgs, cnt, rest);
    Regroup([], [t.sub] + bgs, fgs, cnt + rest);
  }

  lemma FieldsFromEncoded(d: depth, t: Tile, rest: seq<byte>)
    requires t.Coded? && Fits(d, t.bg) && Fits(d, t.fg) && |t.subrects| <= 255
    ensures var b := [t.sub] + EncodeFields(d, t) + rest;
            && CountEnd(d, t.sub) == |[t.sub] + EncodeFields(d, t)|
            && (BackgroundBit(t.sub) ==> PixelFrom(d, b, 1) == t.bg)
            && (ForegroundBit(t.sub) ==> PixelFrom(d, b, BackgroundEnd(d, t.sub)) == t.fg)
            && (SubrectsBit(t.sub) ==> b[CountEnd(d, t.sub) - 1] == |t.subrects|)
  {
    hide PixelFrom, EncodePixel, EncodeFields;
    var bgs, fgs, cnt := BackgroundField(d, t), ForegroundField(d, t), CountField(d, t);
    FieldsApart(d, t, rest);
    if BackgroundBit(t.sub) {
      PixelFromEncoded(d, t.bg, [t.sub], (fgs + cnt) + rest);
    }
    if ForegroundBit(t.sub) {
      PixelFromEncoded(d, t.fg, [t.sub] + bgs, cnt + rest);
    }
    if SubrectsBit(t.sub) {
      assert ((([t.sub] + bgs) + fgs) + (cnt + rest))[|([t.sub] + bgs) + fgs|] == cnt[0];
    }
  }

  lemma CodedParse(d: depth, b: seq<byte>, t: Tile, w: byte, h: byte)
    requires ValidTile(d, t, w, h) && t.Coded? && Canonical(t) && b != [] && b[0] == t.sub
    requires var c := CountEnd(d, t.sub);
             && c + SubrectsSize(d, ColouredBit(t.sub), |t.subrects|) <= |b|
             && (BackgroundBit(t.sub) ==> PixelFrom(d, b, 1) == t.bg)
             && (ForegroundBit(t.sub) ==> PixelFrom(d, b, BackgroundEnd(d, t.sub)) == t.fg)
             && (SubrectsBit(t.sub) ==> b[c - 1] == |t.subrects|)
             && SubrectsFrom(d, ColouredBit(t.sub), b, c, |t.subrects|) == t.subrects
    ensures ParseTile(d, b, w, h) ==
            Complete(t, CountEnd(d, t.sub) + SubrectsSize(d, ColouredBit(t.sub), |t.subrects|))
  {
    hide PixelFrom, SubrectsFrom;
  }

  lemma CodedRoundTrip(d: depth, t: Tile, w: byte, h: byte, rest: seq<byte>)
    requires ValidTile(d, t, w, h) && t.Coded? && Canonical(t)
    ensures ParseTile(d, EncodeTile(d, t, w, h) + rest, w, h) == Complete(t, |EncodeTile(d, t, w, h)|)
  {
    hide PixelFrom, BackgroundEnd, ForegroundEnd, SubrectFrom, SubrectsFrom, EncodeSubrects, EncodeFields, ParseTile,
         CountEnd;
    var c := ColouredBit(t.sub);
    var head := [t.sub] + EncodeFields(d, t);
    var subs := EncodeSubrects(d, c, t.subrects);
    var b := head + (subs + rest);
    assert EncodeTile(d, t, w, h) + rest == b by {
      Regroup([t.sub], EncodeFields(d, t), subs, rest);
    }
    assert b == head + subs + rest;
    FieldsFromEncoded(d, t, subs + rest);
    SubrectsFromEncoded(d, c, t.subrects, head, rest);
    CodedParse(d, b, t, w, h);
  }

  /** Serialising a tile and reading it back gives the tile and exactly its bytes. */
  lemma RoundTrip(d: depth, t: Tile, w: byte, h: byte, rest: seq<byte>)
    requires ValidTile(d, t, w, h) && Canonical(t)
    ensures ParseTile(d, EncodeTile(d, t, w, h) + rest, w, h) == Complete(t, |EncodeTile(d, t, w, h)|)
  {
    if t.Raw? { RawRoundTrip(d, t, w, h, rest); } else { CodedRoundTrip(d, t, w, h, rest); }
  }

  lemma {:induction false} PixelsFromLonger(d: depth, a: seq<byte>, more: seq<byte>, i: nat, n: nat)
    requires i + Scaled(d, n) <= |a|
    ensures PixelsFrom(d, a + more, i, n) == PixelsFrom(d, a, i, n)
    decreases n
  {
    if n > 0 {
      PixelsFromLonger(d, a, more, i + d, n - 1);
    }
  }

  lemma SubrectFromLonger(d: depth, c: bool, a: seq<byte>, more: seq<byte>, i: nat)
    requires i + SubrectSize(d, c) <= |a|
    ensures SubrectFrom(d, c, a + more, i) == SubrectFrom(d, c, a, i)
  {
  }

  lemma {:induction false} SubrectsFromLonger(d: depth, c: bool, a: seq<byte>, more: seq<byte>, i: nat, n: nat)
    requires i + SubrectsSize(d, c, n) <= |a|
    ensures SubrectsFrom(d, c, a + more, i, n) == SubrectsFrom(d, c, a, i, n)
    decreases n
  {
    hide SubrectFrom;
    if n > 0 {
      SubrectFromLonger(d, c, a, more, i);
      SubrectsFromLonger(d, c, a, more, i + SubrectSize(d, c), n - 1);
    }
  }

  lemma PixelFromLonger(d: depth, a: seq<byte>, more: seq<byte>, i: nat)
    requires i + d <= |a|
    ensures PixelFrom(d, a + more, i) == PixelFrom(d, a, i)
  {
  }

  /** A tile that is all there is the same tile whatever follows it. */
  lemma ParseLonger(d: depth, a: seq<byte>, more: seq<byte>, w: byte, h: byte)
    requires !ParseTile(d, a, w, h).Incomplete?
    ensures ParseTile(d, a + more, w, h) == ParseTile(d, a, w, h)
  {
    hide PixelFrom, PixelsFrom, SubrectsFrom, InBuffer;
    var sub := a[0];
    assert (a + more)[0] == sub;
    if RawBit(sub) {
      PixelsFromLonger(d, a, more, 1, Cells(w, h));
    } else {
      var c := CountEnd(d, sub);
      var count := if SubrectsBit(sub) then a[c - 1] else 0;
      assert (a + more)[c - 1] == a[c - 1];
      if BackgroundBit(sub) {
        PixelFromLonger(d, a, more, 1);
      }
      if ForegroundBit(sub) {
        PixelFromLonger(d, a, more, BackgroundEnd(d, sub));
      }
      SubrectsFromLonger(d, ColouredBit(sub), a, more, c, count);
    }
  }

  /** A tile that is not all there is not decoded. */
  lemma PartIsIncomplete(d: depth, t: Tile, w: byte, h: byte, n: nat)
    requires ValidTile(d, t, w, h) && Canonical(t) && n < |EncodeTile(d, t, w, h)|
    ensures ParseTile(d, EncodeTile(d, t, w, h)[..n], w, h) == Incomplete
  {
    hide ParseTile, EncodeTile, ValidTile, Canonical;
    var e := EncodeTile(d, t, w, h);
    var a, more := e[..n], e[n..];
    Cut(e, n, 0);
    assert e + [] == e;
    RoundTrip(d, t, w, h, []);
    PartSize(d, a, w, h);
    if !ParseTile(d, a, w, h).Incomplete? {
      ParseLonger(d, a, more, w, h);
    }
  }

  lemma PartSize(d: depth, a: seq<byte>, w: byte, h: byte)
    ensures ParseTile(d, a, w, h).Complete? ==> ParseTile(d, a, w, h).size <= |a|
  {
  }

  // ----- The loops over 16-bit ints -----

  /** A 16-bit pattern as the int it stands for. */
  function Signed(v: word): (i: int)
    ensures -0x8000 <= i < 0x8000
  {
    if v < 0x8000 then v else v - 0x1_0000
  }

  /** A loop from x over n pixels in steps of 16 counts as it would with unbounded integers: what it
      adds up stays within int. */
  predicate Counts(x: nat, n: nat)
  {
    x < 0x1_0000 && 0 < n < 0x8000 && Signed(x) + 16 * Across(n) < 0x8000
  }

  /** A loop that never runs: n is zero, or negative as an int. */
  predicate Void(x: nat, n: nat)
  {
    x < 0x1_0000 && (n == 0 || (0x8000 <= n < 0x1_0000 && Signed(x) + Signed(n) >= -0x8000))
  }

  /** Where a loop from x0 over n pixels can stand. */
  predicate Reached(x0: nat, n: nat, x: nat)
  {
    x0 <= x <= x0 + 16 * Across(n) && (x - x0) % 16 == 0
  }

  /** The place that a 16-bit loop variable stands for, counted on from where the loop began. */
  function Unwrapped(x0: word, x: word): (u: nat)
    ensures x0 <= u && u % 0x1_0000 == x
  {
    x0 + Sub16(x, x0)
  }

  lemma LoopTest(x0: word, n: word, x: word)
    requires Counts(x0, n) && Reached(x0, n, Unwrapped(x0, x))
    ensures var u := Unwrapped(x0, x);
            && (Signed(x) < Signed(Add16(x0, n)) <==> u < x0 + n)
            && (u < x0 + n ==>
                  && Signed(Sub16(Add16(x0, n), x)) == x0 + n - u
                  && Unwrapped(x0, Add16(x, 16)) == u + 16 && Reached(x0, n, u + 16))
  {
    var k := Sub16(x, x0);
    assert Signed(x) == Signed(x0) + k;
    assert Signed(Add16(x0, n)) == Signed(x0) + n;
  }

  lemma VoidTest(x0: word, n: word)
    requires Void(x0, n)
    ensures Signed(x0) >= Signed(Add16(x0, n))
  {
  }

  /** Every sum that the source's loops compute stays within int. */
  predicate Defined(r: Area)
  {
    Void(r.y, r.h) || (Counts(r.y, r.h) && (Counts(r.x, r.w) || Void(r.x, r.w)))
  }

  predicate Proper(r: Area)
  {
    Counts(r.x, r.w) && Counts(r.y, r.h)
  }

  // ----- Decoding windows of the file -----

  /** The statics: the rectangle, the place of the next tile, counted on from the rectangle's corner
      without wrapping, and the two carried colours. */
  datatype Place = Place(r: Area, x: nat, y: nat, bg: word, fg: word)

  predicate Finished(p: Place)
  {
    !Proper(p.r) || p.y >= p.r.y + p.r.h
  }

  predicate WellPlaced(p: Place)
  {
    && Defined(p.r)
    && (if Counts(p.r.x, p.r.w) then Reached(p.r.x, p.r.w, p.x) && p.x < p.r.x + p.r.w else p.x == p.r.x)
    && (if Counts(p.r.y, p.r.h) then Reached(p.r.y, p.r.h, p.y) else p.y == p.r.y)
  }

  function TileHere(p: Place): (g: Area)
    requires WellPlaced(p) && !Finished(p)
    ensures 0 < g.w <= 16 && 0 < g.h <= 16
  {
    Area(p.x, p.y, Min(16, p.r.x + p.r.w - p.x), Min(16, p.r.y + p.r.h - p.y))
  }

  function Advance(p: Place): (q: Place)
    requires WellPlaced(p) && !Finished(p)
    ensures WellPlaced(q)
  {
    if p.x + 16 < p.r.x + p.r.w then p.(x := p.x + 16) else p.(x := p.r.x, y := p.y + 16)
  }

  /** The colours after looking at a tile that is not all there. */
  function Peeked(d: depth, p: Place, b: seq<byte>): Place
  {
    if b == [] || RawBit(b[0]) then p
    else
      p.(bg := if BackgroundBit(b[0]) && BackgroundEnd(d, b[0]) <= |b| then PixelFrom(d, b, 1) else p.bg,
         fg := if ForegroundBit(b[0]) && ForegroundEnd(d, b[0]) <= |b|
               then PixelFrom(d, b, BackgroundEnd(d, b[0])) else p.fg)
  }

  /** The carry behind a whole tile. A coloured subrectangle leaves its colour in the foreground. */
  function CarryOut(c: Carry, t: Tile): Carry
  {
    var now := CarryInto(c, t);
    if t.Coded? && ColouredBit(t.sub) && t.subrects != []
    then Carry(now.bg, t.subrects[|t.subrects| - 1].colour)
    else now
  }

  function Coloured(p: Place, t: Tile): Place
  {
    var out := CarryOut(Carry(p.bg, p.fg), t);
    p.(bg := out.bg, fg := out.fg)
  }

  datatype Drawn = Drawn(area: Area, pixels: seq<word>)

  /** Bitwise or. */
  function Or(a: nat, b: nat): nat
  {
    if a == 0 && b == 0 then 0 else 2 * Or(a / 2, b / 2) + if a % 2 == 1 || b % 2 == 1 then 1 else 0
  }

  lemma OrStep(a: nat, b: nat, p: nat, q: nat)
    requires p < 2 && q < 2
    ensures Or(2 * a + p, 2 * b + q) == 2 * Or(a, b) + if p == 1 || q == 1 then 1 else 0
  {
  }

  lemma {:induction false} OrNone(a: nat)
    ensures Or(a, 0) == a
  {
    if a > 0 {
      OrNone(a / 2);
    }
  }

  lemma OrPage(a: nat, b: nat)
    ensures Or(0x100 * a, 0x100 * b) == 0x100 * Or(a, b)
  {
    hide Or;
    OrStep(a, b, 0, 0);
    OrStep(2 * a, 2 * b, 0, 0);
    OrStep(4 * a, 4 * b, 0, 0);
    OrStep(8 * a, 8 * b, 0, 0);
    OrStep(16 * a, 16 * b, 0, 0);
    OrStep(32 * a, 32 * b, 0, 0);
    OrStep(64 * a, 64 * b, 0, 0);
    OrStep(128 * a, 128 * b, 0, 0);
  }

  lemma OrRed(r: nat, g0: nat, g1: nat, g2: nat)
    requires g0 < 2 && g1 < 2 && g2 < 2
    ensures Or(32 * r, g0 + 2 * g1 + 4 * g2) == 32 * r + g0 + 2 * g1 + 4 * g2
  {
    hide Or;
    OrNone(r);
    OrStep(r, 0, 0, 0);
    OrStep(2 * r, 0, 0, 0);
    OrStep(4 * r, 0, 0, g2);
    OrStep(8 * r, g2, 0, g1);
    OrStep(16 * r, g1 + 2 * g2, 0, g0);
  }

  lemma OrBlue(r: nat, g0: nat, g1: nat, g2: nat, b0: nat, b1: nat)
    requires g0 < 2 && g1 < 2 && g2 < 2 && b0 < 2 && b1 < 2
    ensures Or(32 * r + g0 + 2 * g1 + 4 * g2, 2 * (b0 + 2 * b1)) ==
            32 * r + g0 + (if g1 == 1 || b0 == 1 then 2 else 0) + if g2 == 1 || b1 == 1 then 4 else 0
  {
    hide Or;
    OrNone(4 * r);
    OrStep(4 * r, 0, g2, b1);
    OrStep(8 * r + g2, b1, g1, b0);
    OrStep(16 * r + g1 + 2 * g2, b0 + 2 * b1, g0, 0);
  }

  lemma ExpandedFits(r: nat, g: nat, b: nat)
    requires r < 8 && g < 8 && b < 4
    ensures Or(Or(r * 0x2000, g * 0x100), b * 0x200) == 0x2000 * r + 0x100 * (g % 2) +
            (if g / 2 % 2 == 1 || b % 2 == 1 then 0x200 else 0) + (if g / 4 == 1 || b / 2 == 1 then 0x400 else 0)
  {
    hide Or;
    var g0, g1, g2, b0, b1 := g % 2, g / 2 % 2, g / 4, b % 2, b / 2;
    assert g == g0 + 2 * g1 + 4 * g2;
    OrPage(32 * r, g);
    OrRed(r, g0, g1, g2);
    OrPage(32 * r + g, 2 * b);
    OrBlue(r, g0, g1, g2, b0, b1);
  }

  /** The three colours of a one-byte pixel, low bits first. */
  function Red(v: byte): nat
  {
    v % 8
  }

  function Green(v: byte): nat
  {
    v / 8 % 8
  }

  function Blue(v: byte): nat
  {
    v / 64
  }

  /** Write8bitPixel: red, green and blue, each shifted to its place for the panel. */
  function Expand8(v: byte): word
  {
    ExpandedFits(Red(v), Green(v), Blue(v));
    Or(Or(Red(v) * 0x2000, Green(v) * 0x100), Blue(v) * 0x200)
  }

  /** Red goes to the top three bits of the panel's pixel and green to bits 8 to 10. Blue is merged into
      the upper two of green's, so that the pixel is the one with blue in bits 3 and 4, where the
      panel has it, exactly when there is none. */
  lemma ColoursGoTo(v: byte)
    ensures var r, g, b := v % 8, v / 8 % 8, v / 64;
            && Expand8(v) == 0x2000 * r + 0x100 * (g % 2) +
                             (if g / 2 % 2 == 1 || b % 2 == 1 then 0x200 else 0) +
                             (if g / 4 == 1 || b / 2 == 1 then 0x400 else 0)
            && (Expand8(v) == 0x2000 * r + 0x100 * g + 0x8 * b <==> b == 0)
  {
    hide Or;
    ExpandedFits(Red(v), Green(v), Blue(v));
  }

  /** The panel's pixel for a pixel of d bytes. */
  function Shade(d: depth, v: word): word
  {
    if d == 1 then Expand8(v % 256) else v
  }

  function Shades(d: depth, px: seq<word>): (s: seq<word>)
    ensures |s| == |px|
  {
    seq(|px|, k requires 0 <= k < |px| => Shade(d, px[k]))
  }

  /** SetupTile and the tile's pixels: this decoder has no window test, and its ints become the
      unsigned parameters of SetupTile. */
  function PaintOne(d: depth, p: Panel, t: Drawn): Panel
  {
    PutAll(SetWindow(p, t.area.x % 0x1_0000, t.area.y % 0x1_0000, t.area.w % 256, t.area.h % 256), Shades(d, t.pixels))
  }

  function PaintDrawn(d: depth, p: Panel, drawn: seq<Drawn>): Panel
    decreases |drawn|
  {
    if drawn == [] then p else PaintDrawn(d, PaintOne(d, p, drawn[0]), drawn[1..])
  }

  lemma {:induction false} PaintDrawnAppend(d: depth, p: Panel, a: seq<Drawn>, b: seq<Drawn>)
    ensures PaintDrawn(d, p, a + b) == PaintDrawn(d, PaintDrawn(d, p, a), b)
    decreases |a|
  {
    if a == [] {
      assert a + b == b;
    } else {
      assert (a + b)[1..] == a[1..] + b;
      PaintDrawnAppend(d, PaintOne(d, p, a[0]), a[1..], b);
    }
  }

  lemma PaintDrawnLast(d: depth, p: Panel, a: seq<Drawn>, t: Drawn)
    ensures PaintDrawn(d, p, a + [t]) == PaintOne(d, PaintDrawn(d, p, a), t)
  {
    PaintDrawnAppend(d, p, a, [t]);
    assert [t][1..] == [];
  }

  function DrawnTile(p: Place, t: Tile): Drawn
    requires WellPlaced(p) && !Finished(p) && ValidTile(2, t, TileHere(p).w, TileHere(p).h)
  {
    Drawn(TileHere(p), TilePixels(Carry(p.bg, p.fg), t, TileHere(p).w, TileHere(p).h))
  }

  /** What one call does with a window: where it stops, how many bytes it used, what it drew. */
  datatype Decoded = Decoded(place: Place, used: nat, tiles: seq<Drawn>, defined: bool)

  function Prepend(used: nat, tiles: seq<Drawn>, r: Decoded): Decoded
  {
    Decoded(r.place, used + r.used, tiles + r.tiles, r.defined)
  }

  function Decode(d: depth, p: Place, b: seq<byte>): (r: Decoded)
    requires WellPlaced(p)
    ensures WellPlaced(r.place) && r.used <= |b|
    decreases |b|
  {
    if Finished(p) then Decoded(p, 0, [], true)
    else
      var g := TileHere(p);
      match ParseTile(d, b, g.w, g.h)
      case Incomplete => Decoded(Peeked(d, p, b), 0, [], true)
      case OutOfBuffer => Decoded(p, 0, [], false)
      case Complete(t, n) =>
        Prepend(n, [DrawnTile(p, t)], Decode(d, PlaceAfter(p, t), b[n..]))
  }

  /** Colours read too early are read again. */
  lemma PeekedAgain(d: depth, p: Place, a: seq<byte>, more: seq<byte>)
    ensures Peeked(d, Peeked(d, p, a), a + more) == Peeked(d, p, a + more)
  {
    if a != [] {
      var sub := a[0];
      assert (a + more)[0] == sub;
      if BackgroundBit(sub) && BackgroundEnd(d, sub) <= |a| {
        PixelFromLonger(d, a, more, 1);
      }
      if ForegroundBit(sub) && ForegroundEnd(d, sub) <= |a| {
        PixelFromLonger(d, a, more, BackgroundEnd(d, sub));
      }
    }
  }

  /** A whole tile sets every colour that an early look at it may have changed. */
  lemma PeekedColours(d: depth, p: Place, a: seq<byte>, more: seq<byte>, w: byte, h: byte)
    requires ParseTile(d, a + more, w, h).Complete?
    ensures var t := ParseTile(d, a + more, w, h).tile;
            CarryInto(Carry(Peeked(d, p, a).bg, Peeked(d, p, a).fg), t) == CarryInto(Carry(p.bg, p.fg), t)
  {
    if a != [] {
      assert (a + more)[0] == a[0];
    }
  }

  /** The pixels of a tile depend on the carry only through its own colours. */
  lemma {:induction false} ColourRowsCarry(c: Carry, c': Carry, t: Tile, w: byte, h: byte)
    requires t.Coded? && CarryInto(c, t) == CarryInto(c', t)
    ensures ColourRows(c, t, w, h) == ColourRows(c', t, w, h)
    decreases h
  {
    if h > 0 {
      ColourRowsCarry(c, c', t, w, h - 1);
      assert ColourRow(c, t, w, h - 1) == ColourRow(c', t, w, h - 1);
    }
  }

  lemma SameTile(p: Place, q: Place, t: Tile)
    requires WellPlaced(p) && !Finished(p) && ValidTile(2, t, TileHere(p).w, TileHere(p).h)
    requires q == p.(bg := q.bg, fg := q.fg) && (t.Raw? ==> q == p)
    requires CarryInto(Carry(q.bg, q.fg), t) == CarryInto(Carry(p.bg, p.fg), t)
    ensures WellPlaced(q) && !Finished(q) && TileHere(q) == TileHere(p)
    ensures DrawnTile(q, t) == DrawnTile(p, t) && Coloured(q, t) == Coloured(p, t)
  {
    hide CarryInto, ColourRows;
    if t.Coded? {
      ColourRowsCarry(Carry(p.bg, p.fg), Carry(q.bg, q.fg), t, TileHere(p).w, TileHere(p).h);
    }
  }

  lemma PeekedDraws(d: depth, p: Place, a: seq<byte>, more: seq<byte>)
    requires WellPlaced(p) && !Finished(p)
    requires ParseTile(d, a + more, TileHere(p).w, TileHere(p).h).Complete?
    ensures var q := Peeked(d, p, a);
            var t := ParseTile(d, a + more, TileHere(p).w, TileHere(p).h).tile;
            && WellPlaced(q) && !Finished(q)
            && TileHere(q) == TileHere(p) && DrawnTile(q, t) == DrawnTile(p, t) && Coloured(q, t) == Coloured(p, t)
  {
    hide ParseTile, Peeked, DrawnTile, Coloured, CarryInto, TileHere, WellPlaced, Finished;
    var g := TileHere(p);
    var t := ParseTile(d, a + more, g.w, g.h).tile;
    PeekedPlace(d, p, a);
    PeekedColours(d, p, a, more, g.w, g.h);
    if t.Raw? {
      RawUnpeeked(d, p, a, more, g.w, g.h);
    }
    SameTile(p, Peeked(d, p, a), t);
  }

  lemma RawUnpeeked(d: depth, p: Place, a: seq<byte>, more: seq<byte>, w: byte, h: byte)
    requires ParseTile(d, a + more, w, h).Complete? && ParseTile(d, a + more, w, h).tile.Raw?
    ensures Peeked(d, p, a) == p
  {
    if a != [] {
      assert (a + more)[0] == a[0];
    }
  }

  /** Having looked at a too short window changes nothing about the longer one. */
  lemma PeekHarmless(d: depth, p: Place, a: seq<byte>, more: seq<byte>)
    requires WellPlaced(p) && !Finished(p) && Decode(d, p, a + more).defined
    ensures WellPlaced(Peeked(d, p, a))
    ensures Decode(d, Peeked(d, p, a), a + more) == Decode(d, p, a + more)
  {
    hide ParseTile, Peeked, DrawnTile, Coloured;
    PeekedPlace(d, p, a);
    var g := TileHere(p);
    match ParseTile(d, a + more, g.w, g.h)
    case Incomplete => PeekedAgain(d, p, a, more);
    case OutOfBuffer =>
    case Complete(t, n) => PeekedDraws(d, p, a, more);
  }

  lemma PeekedPlace(d: depth, p: Place, a: seq<byte>)
    ensures var q := Peeked(d, p, a); q == p.(bg := q.bg, fg := q.fg)
  {
  }

  lemma ColouredPlace(p: Place, t: Tile)
    ensures var q := Coloured(p, t); q == p.(bg := q.bg, fg := q.fg)
  {
  }

  lemma PrependTwice(m: nat, a: seq<Drawn>, n: nat, b: seq<Drawn>, r: Decoded)
    ensures Prepend(m, a, Prepend(n, b, r)) == Prepend(m + n, a + b, r)
  {
    assert a + (b + r.tiles) == (a + b) + r.tiles;
  }

  /** The place after a whole tile. */
  function PlaceAfter(p: Place, t: Tile): (q: Place)
    requires WellPlaced(p) && !Finished(p)
    ensures WellPlaced(q)
  {
    Advance(Coloured(p, t))
  }

  lemma DecodeTile(d: depth, p: Place, b: seq<byte>, t: Tile, n: nat)
    requires WellPlaced(p) && !Finished(p)
    requires ParseTile(d, b, TileHere(p).w, TileHere(p).h) == Complete(t, n)
    ensures n <= |b| && ValidTile(2, t, TileHere(p).w, TileHere(p).h)
    ensures Decode(d, p, b) == Prepend(n, [DrawnTile(p, t)], Decode(d, PlaceAfter(p, t), b[n..]))
  {
  }

  /** Resumption: a window and then the rest of it with more behind is the same as all of it at
      once. The same tiles are drawn in the same order and the same bytes used. */
  lemma {:induction false} Resumes(d: depth, p: Place, a: seq<byte>, more: seq<byte>)
    requires WellPlaced(p) && Decode(d, p, a + more).defined
    ensures var r := Decode(d, p, a);
            && r.defined
            && Decode(d, p, a + more) == Prepend(r.used, r.tiles, Decode(d, r.place, a[r.used..] + more))
    decreases |a|
  {
    hide ParseTile, Peeked, DrawnTile, PlaceAfter;
    if Finished(p) {
      assert a[0..] == a;
    } else {
      var g := TileHere(p);
      match ParseTile(d, a, g.w, g.h)
      case Incomplete =>
        assert a[0..] == a;
        PeekHarmless(d, p, a, more);
      case OutOfBuffer =>
        ParseLonger(d, a, more, g.w, g.h);
      case Complete(t, n) =>
        ResumesTile(d, p, a, more, t, n);
    }
  }

  lemma ResumesTile(d: depth, p: Place, a: seq<byte>, more: seq<byte>, t: Tile, n: nat)
    requires WellPlaced(p) && !Finished(p) && Decode(d, p, a + more).defined
    requires ParseTile(d, a, TileHere(p).w, TileHere(p).h) == Complete(t, n) && 0 < n <= |a|
    ensures var r := Decode(d, p, a);
            && r.defined
            && Decode(d, p, a + more) == Prepend(r.used, r.tiles, Decode(d, r.place, a[r.used..] + more))
    decreases |a|, 0
  {
    hide ParseTile, DrawnTile, PlaceAfter, Decode, WellPlaced, Finished, TileHere;
    ParseLonger(d, a, more, TileHere(p).w, TileHere(p).h);
    assert (a + more)[n..] == a[n..] + more;
    DecodeTile(d, p, a + more, t, n);
    DecodeTile(d, p, a, t, n);
    var q := PlaceAfter(p, t);
    Resumes(d, q, a[n..], more);
    var r := Decode(d, q, a[n..]);
    DropTwice(a, n, r.used);
    PrependTwice(n, [DrawnTile(p, t)], r.used, r.tiles, Decode(d, r.place, a[n + r.used..] + more));
  }

  // ----- A whole rectangle -----

  predicate Canonicals(tiles: seq<Tile>)
  {
    tiles == [] || (Canonical(tiles[0]) && Canonicals(tiles[1..]))
  }

  /** The place stands on grid cell (col, row) of its rectangle. */
  predicate OnCell(p: Place, col: nat, row: nat)
  {
    && Proper(p.r) && p.x == p.r.x + 16 * col && p.y == p.r.y + 16 * row
    && (row < Across(p.r.h) ==> col < Across(p.r.w))
    && (row >= Across(p.r.h) ==> row == Across(p.r.h) && col == 0)
  }

  lemma CellPlace(p: Place, col: nat, row: nat)
    requires OnCell(p, col, row)
    ensures WellPlaced(p)
    ensures Finished(p) <==> row >= Across(p.r.h)
    ensures !Finished(p) ==> TileHere(p) == GridArea(p.r, col, row)
  {
  }

  lemma NextCell(p: Place, t: Tile, col: nat, row: nat)
    requires OnCell(p, col, row) && WellPlaced(p) && !Finished(p)
    ensures PlaceAfter(p, t).r == p.r
    ensures if col + 1 < Across(p.r.w) then OnCell(PlaceAfter(p, t), col + 1, row)
            else OnCell(PlaceAfter(p, t), 0, row + 1)
  {
  }

  lemma ValidAtAnyDepth(d: depth, t: Tile, w: byte, h: byte)
    requires ValidTile(d, t, w, h)
    ensures ValidTile(2, t, w, h)
  {
  }

  /** The tiles this decoder draws for a list of tiles. */
  function DrawnTiles(d: depth, p: Place, tiles: seq<Tile>, col: nat, row: nat): seq<Drawn>
    requires OnCell(p, col, row) && ValidTiles(d, p.r, tiles, col, row)
    decreases |tiles|
  {
    if tiles == [] then []
    else
      CellPlace(p, col, row);
      ValidAtAnyDepth(d, tiles[0], TileHere(p).w, TileHere(p).h);
      NextCell(p, tiles[0], col, row);
      [DrawnTile(p, tiles[0])] +
      if col + 1 < Across(p.r.w) then DrawnTiles(d, PlaceAfter(p, tiles[0]), tiles[1..], col + 1, row)
      else DrawnTiles(d, PlaceAfter(p, tiles[0]), tiles[1..], 0, row + 1)
  }

  /** The whole of an encoded rectangle in one window: all its bytes are used, whatever follows
      them, and its tiles are drawn in order. */
  lemma {:induction false} DecodeRectangle(d: depth, p: Place, tiles: seq<Tile>, col: nat, row: nat, rest: seq<byte>)
    requires OnCell(p, col, row) && ValidTiles(d, p.r, tiles, col, row) && Canonicals(tiles)
    ensures WellPlaced(p)
    ensures var e := EncodeTiles(d, p.r, tiles, col, row);
            var r := Decode(d, p, e + rest);
            r.defined && Finished(r.place) && r.used == |e| && r.tiles == DrawnTiles(d, p, tiles, col, row)
    decreases |tiles|
  {
    hide DrawnTile, PlaceAfter, EncodeTile, ParseTile, OnCell, Canonical;
    CellPlace(p, col, row);
    if tiles != [] {
      var t := tiles[0];
      var g := TileHere(p);
      var col1, row1 := if col + 1 < Across(p.r.w) then col + 1 else 0,
                        if col + 1 < Across(p.r.w) then row else row + 1;
      ValidAtAnyDepth(d, t, g.w, g.h);
      NextCell(p, t, col, row);
      var q := PlaceAfter(p, t);
      var e := EncodeTile(d, t, g.w, g.h);
      var more := EncodeTiles(d, p.r, tiles[1..], col1, row1);
      assert EncodeTiles(d, p.r, tiles, col, row) + rest == e + (more + rest);
      RoundTrip(d, t, g.w, g.h, more + rest);
      DropPrefix(e, more + rest);
      DecodeTile(d, p, e + (more + rest), t, |e|);
      DecodeRectangle(d, q, tiles[1..], col1, row1, rest);
    }
  }

  // ----- The driver -----

  /** MAX_TILE_SIZE: a raw 16 x 16 tile. */
  function MaxTileSize(d: depth): nat
  {
    Scaled(d, 256) + 1
  }

  function Window(d: depth, b: seq<byte>): (w: seq<byte>)
    ensures |w| == Min(|b|, MaxTileSize(d)) && w == b[..|w|]
  {
    b[..Min(|b|, MaxTileSize(d))]
  }

  /** The window holds as many bytes as the subencoding byte and 256 pixels. */
  lemma WindowHolds(d: depth)
    ensures MaxTileSize(d) == 1 + 256 * d
  {
  }

  lemma RawTileSize(d: depth, t: Tile, w: byte, h: byte)
    requires ValidTile(d, t, w, h) && t.Raw?
    ensures |EncodeTile(d, t, w, h)| == 1 + if d == 1 then Cells(w, h) else 2 * Cells(w, h)
  {
    hide Cells, EncodePixels, Fits;
  }

  /** A valid raw tile is never longer than that, and a full one is exactly as long. */
  lemma RawTileFits(d: depth, t: Tile, w: byte, h: byte)
    requires ValidTile(d, t, w, h) && t.Raw? && w <= 16 && h <= 16
    ensures |EncodeTile(d, t, w, h)| == 1 + d * (w * h) <= 1 + 256 * d
    ensures w == h == 16 ==> |EncodeTile(d, t, w, h)| == 1 + 256 * d
  {
    RawTileSize(d, t, w, h);
    hide *;
    CellsIsProduct(w, h);
    CellsBound(w, h);
  }

  /** How the driver ends: with the file used up, or with a window that yields nothing, which it
      would offer again and again. */
  datatype Driven = Driven(place: Place, tiles: seq<Drawn>, stuck: bool)

  function Drive(d: depth, p: Place, b: seq<byte>): Driven
    requires WellPlaced(p)
    decreases |b|
  {
    if b == [] then Driven(p, [], false)
    else
      var r := Decode(d, p, Window(d, b));
      if r.used == 0 then Driven(r.place, [], true)
      else
        var v := Drive(d, r.place, b[r.used..]);
        Driven(v.place, r.tiles + v.tiles, v.stuck)
  }

  /** A window that yields nothing never will. */
  lemma StuckForGood(d: depth, p: Place, b: seq<byte>)
    requires WellPlaced(p) && Decode(d, p, Window(d, b)).defined && Decode(d, p, Window(d, b)).used == 0
    ensures var r := Decode(d, p, Window(d, b));
            Decode(d, r.place, Window(d, b)).used == 0
  {
    hide Decode;
    var a := Window(d, b);
    assert a + [] == a && a[0..] == a;
    Resumes(d, p, a, []);
  }

  /** Every tile of the file, met in order, is no longer than a full raw tile. */
  predicate TilesFit(d: depth, p: Place, b: seq<byte>)
    requires WellPlaced(p)
    decreases |b|
  {
    Finished(p) ||
    match ParseTile(d, b, TileHere(p).w, TileHere(p).h)
    case Complete(t, n) => n <= 1 + 256 * d && TilesFit(d, PlaceAfter(p, t), b[n..])
    case _ => true
  }

  /** A complete tile is complete in any window that holds it. */
  lemma ParseShorter(d: depth, b: seq<byte>, m: nat, w: byte, h: byte)
    requires ParseTile(d, b, w, h).Complete? && ParseTile(d, b, w, h).size <= m <= |b|
    ensures ParseTile(d, b[..m], w, h) == ParseTile(d, b, w, h)
  {
    hide PixelFrom, PixelsFrom, SubrectsFrom, InBuffer;
    var a := b[..m];
    assert b == a + b[m..];
    var sub := b[0];
    assert a[0] == sub;
    if !RawBit(sub) {
      var c := CountEnd(d, sub);
      assert SubrectsBit(sub) ==> a[c - 1] == b[c - 1];
      assert !ParseTile(d, a, w, h).Incomplete?;
    }
    ParseLonger(d, a, b[m..], w, h);
  }

  lemma FitAfterWindow(d: depth, p: Place, a: seq<byte>, more: seq<byte>)
    requires WellPlaced(p) && Decode(d, p, a + more).defined && |a| <= MaxTileSize(d)
    ensures var r := Decode(d, p, a);
            TilesFit(d, p, a + more) == TilesFit(d, r.place, a[r.used..] + more)
    decreases |a|
  {
    hide ParseTile, Peeked, DrawnTile, PlaceAfter;
    if Finished(p) {
      assert a[0..] == a;
    } else {
      var g := TileHere(p);
      match ParseTile(d, a, g.w, g.h)
      case Incomplete =>
        assert a[0..] == a;
        PeekFits(d, p, a, more);
      case OutOfBuffer =>
        ParseLonger(d, a, more, g.w, g.h);
      case Complete(t, n) =>
        ParseLonger(d, a, more, g.w, g.h);
        assert (a + more)[n..] == a[n..] + more;
        DecodeTile(d, p, a + more, t, n);
        DecodeTile(d, p, a, t, n);
        FitAfterWindow(d, PlaceAfter(p, t), a[n..], more);
        DropTwice(a, n, Decode(d, PlaceAfter(p, t), a[n..]).used);
    }
  }

  lemma PeekFits(d: depth, p: Place, a: seq<byte>, more: seq<byte>)
    requires WellPlaced(p) && !Finished(p)
    ensures WellPlaced(Peeked(d, p, a))
    ensures TilesFit(d, Peeked(d, p, a), a + more) == TilesFit(d, p, a + more)
  {
    hide ParseTile, Peeked, DrawnTile, Coloured;
    PeekedPlace(d, p, a);
    match ParseTile(d, a + more, TileHere(p).w, TileHere(p).h)
    case Complete(t, n) => PeekedDraws(d, p, a, more);
    case _ =>
  }

  /** The driver works exactly on the files that hold whole tiles of the rectangle and nothing more,
      all of which fit a window: it ends, with all of them drawn as by one call, if and only if the
      file is one of these. */
  lemma {:induction false} DriverExact(d: depth, p: Place, b: seq<byte>)
    requires WellPlaced(p) && Decode(d, p, b).defined
    ensures !Drive(d, p, b).stuck <==> Decode(d, p, b).used == |b| && TilesFit(d, p, b)
    ensures !Drive(d, p, b).stuck ==> Drive(d, p, b).tiles == Decode(d, p, b).tiles
    ensures !Drive(d, p, b).stuck && Finished(Decode(d, p, b).place) ==> Finished(Drive(d, p, b).place)
    decreases |b|
  {
    hide Decode, TilesFit, Finished;
    if b == [] {
      EmptyFits(d, p);
    } else {
      var a := Window(d, b);
      var more := b[|a|..];
      assert b == a + more;
      Resumes(d, p, a, more);
      FitAfterWindow(d, p, a, more);
      var r := Decode(d, p, a);
      assert a[r.used..] + more == b[r.used..];
      if r.used == 0 {
        StuckTile(d, p, b);
      } else {
        DriverExact(d, r.place, b[r.used..]);
      }
    }
  }

  lemma EmptyFits(d: depth, p: Place)
    requires WellPlaced(p)
    ensures TilesFit(d, p, []) && Decode(d, p, []).tiles == []
    ensures Finished(Decode(d, p, []).place) == Finished(p)
  {
  }

  lemma StuckTile(d: depth, p: Place, b: seq<byte>)
    requires WellPlaced(p) && b != []
    ensures Decode(d, p, b).defined && Decode(d, p, b).used == |b| && Decode(d, p, Window(d, b)).used == 0 ==>
              !TilesFit(d, p, b)
  {
    hide ParseTile, DrawnTile, PlaceAfter, Peeked;
    if !Finished(p) {
      var g := TileHere(p);
      var whole := ParseTile(d, b, g.w, g.h);
      if whole.Complete? && whole.size <= MaxTileSize(d) {
        ParseShorter(d, b, |Window(d, b)|, g.w, g.h);
        DecodeTile(d, p, Window(d, b), whole.tile, whole.size);
      }
    }
  }

  /** No tile of a rectangle takes more bytes than a raw 16 x 16 tile. */
  predicate AllFit(d: depth, r: Area, tiles: seq<Tile>, col: nat, row: nat)
    requires ValidTiles(d, r, tiles, col, row)
    decreases |tiles|
  {
    tiles == [] ||
    var g := GridArea(r, col, row);
    && |EncodeTile(d, tiles[0], g.w, g.h)| <= 1 + 256 * d
    && if col + 1 < Across(r.w) then AllFit(d, r, tiles[1..], col + 1, row) else AllFit(d, r, tiles[1..], 0, row + 1)
  }

  lemma {:induction false} EncodedFits(d: depth, p: Place, tiles: seq<Tile>, col: nat, row: nat)
    requires OnCell(p, col, row) && ValidTiles(d, p.r, tiles, col, row) && Canonicals(tiles)
    ensures WellPlaced(p)
    ensures TilesFit(d, p, EncodeTiles(d, p.r, tiles, col, row)) <==> AllFit(d, p.r, tiles, col, row)
    decreases |tiles|
  {
    hide DrawnTile, PlaceAfter, EncodeTile, ParseTile, OnCell, Canonical;
    CellPlace(p, col, row);
    if tiles != [] {
      var t := tiles[0];
      var g := TileHere(p);
      var col1, row1 := if col + 1 < Across(p.r.w) then col + 1 else 0,
                        if col + 1 < Across(p.r.w) then row else row + 1;
      ValidAtAnyDepth(d, t, g.w, g.h);
      NextCell(p, t, col, row);
      var more := EncodeTiles(d, p.r, tiles[1..], col1, row1);
      var e := EncodeTile(d, t, g.w, g.h);
      assert EncodeTiles(d, p.r, tiles, col, row) == e + more;
      RoundTrip(d, t, g.w, g.h, more);
      DropPrefix(e, more);
      EncodedFits(d, PlaceAfter(p, t), tiles[1..], col1, row1);
    }
  }

  /** The statics after SetupHandleHextile. */
  predicate AtCorner(p: Place)
  {
    Defined(p.r) && p.x == p.r.x && p.y == p.r.y
  }

  /** The driver on a file that holds exactly an encoded rectangle: it ends if and only if every
      tile fits a window and neither side is negative as an int, and then it has drawn the
      rectangle's tiles in order. */
  lemma DriverOnRectangle(d: depth, p: Place, tiles: seq<Tile>)
    requires AtCorner(p) && tiles != [] && ValidTiles(d, p.r, tiles, 0, 0) && Canonicals(tiles)
    ensures WellPlaced(p)
    ensures var v := Drive(d, p, EncodeTiles(d, p.r, tiles, 0, 0));
            && (!v.stuck <==> AllFit(d, p.r, tiles, 0, 0) && p.r.w < 0x8000 && p.r.h < 0x8000)
            && (!v.stuck ==> OnCell(p, 0, 0) && v.tiles == DrawnTiles(d, p, tiles, 0, 0) && Finished(v.place))
  {
    if p.r.w < 0x8000 && p.r.h < 0x8000 {
      assert OnCell(p, 0, 0);
      hide Drive, Decode, TilesFit, AllFit, DrawnTiles, EncodeTiles, ValidTiles, OnCell, Canonicals, Finished;
      var e := EncodeTiles(d, p.r, tiles, 0, 0);
      DecodeRectangle(d, p, tiles, 0, 0, []);
      assert e + [] == e;
      EncodedFits(d, p, tiles, 0, 0);
      DriverExact(d, p, e);
    } else {
      NeverStarts(d, p, tiles);
    }
  }

  predicate AllRaw(tiles: seq<Tile>)
  {
    tiles == [] || (tiles[0].Raw? && AllRaw(tiles[1..]))
  }

  lemma {:induction false} RawTilesFit(d: depth, r: Area, tiles: seq<Tile>, col: nat, row: nat)
    requires ValidTiles(d, r, tiles, col, row) && AllRaw(tiles)
    ensures AllFit(d, r, tiles, col, row) && Canonicals(tiles)
    decreases |tiles|
  {
    hide EncodeTile, ValidTile;
    if tiles != [] {
      var g := GridArea(r, col, row);
      RawTileFits(d, tiles[0], g.w, g.h);
      var col1, row1 := if col + 1 < Across(r.w) then col + 1 else 0, if col + 1 < Across(r.w) then row else row + 1;
      RawTilesFit(d, r, tiles[1..], col1, row1);
    }
  }

  /** The driver never gets stuck on a rectangle of raw tiles, at any depth. */
  lemma RawFileEnds(d: depth, p: Place, tiles: seq<Tile>)
    requires AtCorner(p) && tiles != [] && ValidTiles(d, p.r, tiles, 0, 0) && AllRaw(tiles)
    requires p.r.w < 0x8000 && p.r.h < 0x8000
    ensures WellPlaced(p) && OnCell(p, 0, 0)
    ensures var v := Drive(d, p, EncodeTiles(d, p.r, tiles, 0, 0));
            !v.stuck && v.tiles == DrawnTiles(d, p, tiles, 0, 0) && Finished(v.place)
  {
    RawTilesFit(d, p.r, tiles, 0, 0);
    hide Drive, AllFit, DrawnTiles, EncodeTiles, ValidTiles, Canonicals, Finished, AllRaw;
    DriverOnRectangle(d, p, tiles);
  }

  /** A side of 32768 or more is negative as an int: no loop runs and no byte is ever used. */
  lemma NeverStarts(d: depth, p: Place, tiles: seq<Tile>)
    requires WellPlaced(p) && !Proper(p.r)
    requires tiles != [] && ValidTiles(d, p.r, tiles, 0, 0)
    ensures var e := EncodeTiles(d, p.r, tiles, 0, 0);
            e != [] && Drive(d, p, e) == Driven(p, [], true)
  {
    var g := GridArea(p.r, 0, 0);
    assert |EncodeTile(d, tiles[0], g.w, g.h)| > 0;
  }
}
