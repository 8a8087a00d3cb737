/**
 What the bytes of SGR (section 8.3.117 of ECMA-48) do to the colours.
 */
module GraphicRendition {
  import opened Words
  import opened DisplayModel
  import opened TerminalModel
  import opened Steps
  import opened Parameters
  import opened ColourInvariant
  import Commands
  import Sequences
  import Arithmetic
  import Bits

  /** The parameters that are kept: the first sixteen, modulo the word size. */
  function Kept(vs: seq<nat>): (ws: seq<u32>)
    ensures |ws| == Arithmetic.Min(|vs|, 16)
  {
    seq(Arithmetic.Min(|vs|, 16), i requires 0 <= i < Arithmetic.Min(|vs|, 16) => vs[i] % 0x1_0000_0000)
  }

  /** Parameters are read where they are, whatever is before them and behind the last one. */
  lemma {:induction false} ReadFrom(tb: Tables, p: Palette, c: Colours, values: seq<u32>, count: nat, ws: seq<u32>, k: nat, i: nat)
    requires p.Valid() && c.style.Valid() && k + |ws| == count <= |values| && values[k..count] == ws
    ensures SgrFrom(tb, p, c, values, count, k + i) == SgrFrom(tb, p, c, ws, |ws|, i)
    decreases |ws| - i
  {
    hide *;
    Unfold(tb, p, c, values, count, k + i);
    Unfold(tb, p, c, ws, |ws|, i);
    if i < |ws| {
      forall j | i <= j < |ws| ensures values[k + j] == ws[j] {
        assert values[k..count][j] == ws[j];
      }
      if ws[i] == 38 || ws[i] == 48 {
        var fg := ws[i] == 38;
        if i + 1 < |ws| {
          if ws[i + 1] == 2 {
            if i + 4 < |ws| {
              ReadFrom(tb, p, SetDirect(c, fg, Rgb(ws[i + 2], ws[i + 3], ws[i + 4])), values, count, ws, k, i + 5);
            }
          } else if ws[i + 1] == 5 {
            if i + 2 < |ws| {
              ReadFrom(tb, p, SetDirect(c, fg, Indexed(tb, p, ws[i + 2])), values, count, ws, k, i + 3);
            }
          } else {
            ReadFrom(tb, p, c, values, count, ws, k, i + 2);
          }
        }
      } else {
        ReadFrom(tb, p, Attribute(p, c, ws[i]), values, count, ws, k, i + 1);
      }
    }
  }

  lemma Unfold(tb: Tables, p: Palette, c: Colours, values: seq<u32>, count: nat, i: nat)
    requires p.Valid() && c.style.Valid() && count <= |values|
    ensures forall fg, colour :: SetDirect(c, fg, colour).style == c.style
    ensures i < count ==> Attribute(p, c, values[i]).style.Valid()
    ensures SgrFrom(tb, p, c, values, count, i)
      == if i >= count then c
         else if values[i] == 38 || values[i] == 48 then
           if i + 1 >= count then c
           else if values[i + 1] == 2 then
             if i + 4 >= count then c
             else SgrFrom(tb, p, SetDirect(c, values[i] == 38, Rgb(values[i + 2], values[i + 3], values[i + 4])), values, count, i + 5)
           else if values[i + 1] == 5 then
             if i + 2 >= count then c
             else SgrFrom(tb, p, SetDirect(c, values[i] == 38, Indexed(tb, p, values[i + 2])), values, count, i + 3)
           else SgrFrom(tb, p, c, values, count, i + 2)
         else SgrFrom(tb, p, Attribute(p, c, values[i]), values, count, i + 1)
  {
    hide Attribute, Indexed, Rgb;
  }

  /** One parameter, in terms of the colours that text and background are drawn in: reverse video exchanges them. */
  lemma AttributeMeans(p: Palette, c: Colours, v: u32, front: u32, back: u32)
    requires p.Valid() && c.style.Valid() && (front, back) == if c.style.reverseVideo then (c.bg, c.fg) else (c.fg, c.bg)
    ensures var r, s := Attribute(p, c, v), c.style;
      var (front', back') := if r.style.reverseVideo then (r.bg, r.fg) else (r.fg, r.bg);
      if v == 0 then
        r.style == Style(false, false, false, None, None, s.charset) && front' == p.defaultFg && back' == 0xffff_ffff
      else if v == 1 then
        r.style == s.(bold := true) && back' == back && front' == (if s.primary.Some? then p.bright[s.primary.value]
          else if s.reverseVideo then p.defaultBgBright else p.defaultFgBright)
      else if v == 22 then
        r.style == s.(bold := false) && back' == back && front' == (if s.primary.Some? then p.ansi[s.primary.value]
          else if s.reverseVideo then 0xffff_ffff else p.defaultFg)
      else if v == 5 then
        r.style == s.(bgBold := true) && front' == front && back' == (if s.background.Some? then p.bright[s.background.value]
          else if s.reverseVideo then p.defaultFgBright else p.defaultBgBright)
      else if v == 25 then
        r.style == s.(bgBold := false) && front' == front && back' == (if s.background.Some? then p.ansi[s.background.value]
          else if s.reverseVideo then p.defaultFg else 0xffff_ffff)
      else if v == 7 then r.style == s.(reverseVideo := true) && front' == front && back' == back
      else if v == 27 then r.style == s.(reverseVideo := false) && front' == front && back' == back
      else if 30 <= v <= 37 then
        r.style == s.(primary := Some(v - 30)) && back' == back && front' == (if s.bold then p.bright[v - 30] else p.ansi[v - 30])
      else if 40 <= v <= 47 then
        r.style == s.(background := Some(v - 40)) && front' == front && back' == (if s.bgBold then p.bright[v - 40] else p.ansi[v - 40])
      else if 90 <= v <= 97 then r.style == s.(primary := Some(v - 90)) && back' == back && front' == p.bright[v - 90]
      else if 100 <= v <= 107 then r.style == s.(background := Some(v - 100)) && front' == front && back' == p.bright[v - 100]
      else if v == 39 then
        r.style == s.(primary := None) && back' == back && front' == (if s.bold then p.defaultFgBright else p.defaultFg)
      else if v == 49 then
        r.style == s.(background := None) && front' == front && back' == (if s.bgBold then p.defaultBgBright else 0xffff_ffff)
      else r == c
  {
  }

  /** The last byte of SGR. */
  lemma DispatchGraphics(tb: Tables, t: Term, vs: seq<nat>)
    requires t.Settled() && |t.parser.values| == MAX_VALUES && Sequences.Reach(t.parser, vs, 'm' as int) && t.parser.count <= MAX_VALUES
    ensures t.display.palette.Valid() && t.style.Valid()
    ensures var r := Dispatch(tb, t, 'm' as int);
      && r == t.(display := t.display.(fg := r.display.fg, bg := r.display.bg), style := r.style)
      && ColoursOf(r) == if vs == [] then Attribute(t.display.palette, ColoursOf(t), 0)
                         else SgrFrom(tb, t.display.palette, ColoursOf(t), Kept(vs), |Kept(vs)|, 0)
  {
    assert t.parser.values[0..t.parser.count] == Kept(vs);
    ReadFrom(tb, t.display.palette, ColoursOf(t), t.parser.values, t.parser.count, Kept(vs), 0, 0);
    hide Attribute, SgrFrom, Display.Sized, Kept;
  }

  /** SGR changes the colours and nothing else, as its parameters say; without any it resets them. */
  lemma Renders(tb: Tables, t: Term, vs: seq<nat>)
    requires Grounded(t)
    ensures t.display.palette.Valid() && t.style.Valid()
    ensures var r := Run(tb, t, Sequences.Sequence(vs, 'm' as int));
      && Grounded(r) && r == t.(parser := r.parser, display := t.display.(fg := r.display.fg, bg := r.display.bg), style := r.style)
      && ColoursOf(r) == if vs == [] then Attribute(t.display.palette, ColoursOf(t), 0)
                         else SgrFrom(tb, t.display.palette, ColoursOf(t), Kept(vs), |Kept(vs)|, 0)
  {
    hide *;
    Commands.GroundedIs(t);
    Commands.OutsideIs(t);
    SgrIsFinal();
    var q := Sequences.Acts(tb, t, vs, 'm' as int);
    Sequences.BeforeIs(t, q);
    var u := Sequences.Before(t, q);
    DispatchGraphics(tb, u, vs);
    SameColours(t, u);
    SameColours(Run(tb, t, Sequences.Sequence(vs, 'm' as int)), Dispatch(tb, u, 'm' as int));
  }

  lemma SgrIsFinal()
    ensures IsFinal('m' as int)
  {
  }

  lemma SameColours(t: Term, u: Term)
    requires t.display.fg == u.display.fg && t.display.bg == u.display.bg && t.style == u.style
    ensures ColoursOf(t) == ColoursOf(u)
  {
  }

  /** A single parameter. */
  lemma RendersOne(tb: Tables, t: Term, v: nat)
    requires Grounded(t) && v % 0x1_0000_0000 != 38 && v % 0x1_0000_0000 != 48
    ensures t.display.palette.Valid() && t.style.Valid()
    ensures ColoursOf(Run(tb, t, Sequences.Sequence([v], 'm' as int))) == Attribute(t.display.palette, ColoursOf(t), v % 0x1_0000_0000)
  {
    Renders(tb, t, [v]);
    hide *;
    KeptOne(v);
    StyleOf(t);
    Unfold(tb, t.display.palette, ColoursOf(t), Kept([v]), 1, 0);
    Unfold(tb, t.display.palette, Attribute(t.display.palette, ColoursOf(t), v % 0x1_0000_0000), Kept([v]), 1, 1);
  }

  lemma KeptOne(v: nat)
    ensures Kept([v]) == [v % 0x1_0000_0000]
  {
  }

  lemma StyleOf(t: Term)
    ensures ColoursOf(t).style == t.style
  {
  }

  /** A list of parameters is rendered group by group: 38 and 48 take the mode behind them and, for mode 2, three more
      parameters, for mode 5 one more. */
  lemma Grouped(tb: Tables, p: Palette, c: Colours, ws: seq<u32>, n: nat)
    requires p.Valid() && c.style.Valid() && n <= |ws|
    requires ws != [] && if ws[0] != 38 && ws[0] != 48 then n == 1 else |ws| >= 2 && n == if ws[1] == 2 then 5 else if ws[1] == 5 then 3 else 2
    ensures var c' := SgrFrom(tb, p, c, ws[..n], n, 0);
      c'.style.Valid() && SgrFrom(tb, p, c, ws, |ws|, 0) == SgrFrom(tb, p, c', ws[n..], |ws| - n, 0)
  {
    hide *;
    var head := ws[..n];
    assert head[0] == ws[0] && (n >= 2 ==> head[1] == ws[1]);
    Unfold(tb, p, c, ws, |ws|, 0);
    Unfold(tb, p, c, head, n, 0);
    var c' := SgrFrom(tb, p, c, head, n, 0);
    var next := if ws[0] != 38 && ws[0] != 48 then Attribute(p, c, ws[0])
      else if ws[1] == 2 then SetDirect(c, ws[0] == 38, Rgb(ws[2], ws[3], ws[4]))
      else if ws[1] == 5 then SetDirect(c, ws[0] == 38, Indexed(tb, p, ws[2])) else c;
    Unfold(tb, p, next, head, n, n);
    assert c' == next;
    ReadFrom(tb, p, next, ws, |ws|, ws[n..], n, 0);
  }

  /** So a list does what its groups do in sequences of their own, one after another. */
  lemma InTurn(tb: Tables, t: Term, vs: seq<nat>, n: nat)
    requires Grounded(t) && 2 <= |vs| <= 16 && n < |vs|
    requires if vs[0] % 0x1_0000_0000 != 38 && vs[0] % 0x1_0000_0000 != 48 then n == 1
             else n == if vs[1] % 0x1_0000_0000 == 2 then 5 else if vs[1] % 0x1_0000_0000 == 5 then 3 else 2
    ensures var c: u8 := 'm' as int;
      var r, r' := Run(tb, t, Sequences.Sequence(vs, c)), Run(tb, t, Sequences.Sequence(vs[..n], c) + Sequences.Sequence(vs[n..], c));
      Grounded(r) && Grounded(r') && r == r'.(parser := r.parser)
  {
    hide *;
    Commands.GroundedIs(t);
    Commands.OutsideIs(t);
    var c: u8 := 'm' as int;
    var p := t.display.palette;
    Renders(tb, t, vs);
    Renders(tb, t, vs[..n]);
    var t' := Run(tb, t, Sequences.Sequence(vs[..n], c));
    Renders(tb, t', vs[n..]);
    RunAppend(tb, t, Sequences.Sequence(vs[..n], c), Sequences.Sequence(vs[n..], c));
    KeptParts(vs, n);
    StyleOf(t);
    Grouped(tb, p, ColoursOf(t), Kept(vs), n);
    ColoursAre(Run(tb, t, Sequences.Sequence(vs, c)));
    ColoursAre(Run(tb, t', Sequences.Sequence(vs[n..], c)));
  }

  lemma ColoursAre(t: Term)
    ensures ColoursOf(t) == Colours(t.display.fg, t.display.bg, t.style)
  {
  }

  lemma KeptParts(vs: seq<nat>, n: nat)
    requires 1 <= n < |vs| <= 16
    ensures var ws := Kept(vs); |ws| == |vs| && Kept(vs[..n]) == ws[..n] && Kept(vs[n..]) == ws[n..]
    ensures |Kept(vs[..n])| == n && |Kept(vs[n..])| == |vs| - n
    ensures Kept(vs)[0] == vs[0] % 0x1_0000_0000 && Kept(vs)[1] == vs[1] % 0x1_0000_0000
  {
  }

  /** A colour of three bytes. */
  lemma RgbIs(r: u32, g: u32, b: u32)
    requires r < 0x100 && g < 0x100 && b < 0x100
    ensures Rgb(r, g, b) == r * 0x1_0000 + g * 0x100 + b
  {
    hide *;
    Shifts();
    Bits.OrApart(r, g * 0x100, 16, 0x1_0000);
    Bits.OrApart(r * 0x100 + g, b, 8, 0x100);
    RgbDef(r, g, b);
  }

  lemma Shifts()
    ensures Bits.Pow2(8) == 0x100 && Bits.Pow2(16) == 0x1_0000 && WORD_MODULUS == 0x1_0000_0000
  {
    assert Bits.Pow2(8) == 0x100;
  }

  lemma RgbDef(r: u32, g: u32, b: u32)
    ensures Rgb(r, g, b) == Bits.Or(Bits.Or(r * 0x1_0000, g * 0x100), b) % 0x1_0000_0000
  {
    hide Bits.Or;
  }

  /** 38;2 and 48;2 set a colour of three bytes. Reverse video does not exchange the two. */
  lemma RendersRgb(tb: Tables, t: Term, v: nat, r: nat, g: nat, b: nat)
    requires Grounded(t) && (v == 38 || v == 48) && r < 0x100 && g < 0x100 && b < 0x100
    ensures var u, colour := Run(tb, t, Sequences.Sequence([v, 2, r, g, b], 'm' as int)), r * 0x1_0000 + g * 0x100 + b;
      && Grounded(u)
      && u == t.(parser := u.parser, display := if v == 38 then t.display.(fg := colour) else t.display.(bg := colour))
  {
    hide *;
    var vs := [v, 2, r, g, b];
    Commands.GroundedIs(t);
    Commands.OutsideIs(t);
    Renders(tb, t, vs);
    ColoursAre(t);
    ColoursAre(Run(tb, t, Sequences.Sequence(vs, 'm' as int)));
    var p, c, ws := t.display.palette, ColoursOf(t), Kept(vs);
    KeptIs(vs);
    RgbIs(r, g, b);
    Unfold(tb, p, c, ws, 5, 0);
    DirectSet(c, v == 38, Rgb(ws[2], ws[3], ws[4]));
    Unfold(tb, p, SetDirect(c, v == 38, Rgb(ws[2], ws[3], ws[4])), ws, 5, 5);
  }

  /** 38;5 and 48;5 set one of the sixteen palette colours, or one of the colour cube. */
  lemma RendersIndexed(tb: Tables, t: Term, v: nat, k: nat)
    requires Grounded(t) && (v == 38 || v == 48) && k < 0x100
    ensures t.display.palette.Valid()
    ensures var p, u := t.display.palette, Run(tb, t, Sequences.Sequence([v, 5, k], 'm' as int));
      var colour := if k < 8 then p.ansi[k] else if k < 16 then p.bright[k - 8] else tb.col256(k - 16);
      && Grounded(u)
      && u == t.(parser := u.parser, display := if v == 38 then t.display.(fg := colour) else t.display.(bg := colour))
  {
    hide *;
    var vs := [v, 5, k];
    Commands.GroundedIs(t);
    Commands.OutsideIs(t);
    Renders(tb, t, vs);
    ColoursAre(t);
    ColoursAre(Run(tb, t, Sequences.Sequence(vs, 'm' as int)));
    var p, c, ws := t.display.palette, ColoursOf(t), Kept(vs);
    KeptIs(vs);
    PaletteIs(p);
    IndexedIs(tb, p, k);
    Unfold(tb, p, c, ws, 3, 0);
    DirectSet(c, v == 38, Indexed(tb, p, ws[2]));
    Unfold(tb, p, SetDirect(c, v == 38, Indexed(tb, p, ws[2])), ws, 3, 3);
  }

  lemma KeptIs(vs: seq<nat>)
    requires |vs| <= 16 && forall i :: 0 <= i < |vs| ==> vs[i] < 0x1_0000_0000
    ensures |Kept(vs)| == |vs| && forall i :: 0 <= i < |vs| ==> Kept(vs)[i] == vs[i]
  {
  }

  lemma PaletteIs(p: Palette)
    requires p.Valid()
    ensures |p.ansi| == 8 && |p.bright| == 8
  {
  }

  lemma IndexedIs(tb: Tables, p: Palette, k: u32)
    requires p.Valid() && |p.ansi| == 8 && |p.bright| == 8
    ensures Indexed(tb, p, k) == if k < 8 then p.ansi[k] else if k < 16 then p.bright[k - 8] else tb.col256(k - 16)
  {
  }

  lemma DirectSet(c: Colours, fg: bool, colour: u32)
    ensures SetDirect(c, fg, colour) == if fg then c.(fg := colour) else c.(bg := colour)
  {
  }
}
