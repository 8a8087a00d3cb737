/**
 The palette invariant of SGR (section 8.3.117 of ECMA-48): what is drawn is what the attributes say.
 */
module ColourInvariant {
  import opened Words
  import opened DisplayModel
  import opened TerminalModel
  import opened Steps
  import opened Parameters

  function PrimaryColour(p: Palette, s: Style): u32
    requires p.Valid() && s.Valid() && s.primary.Some?
  {
    if s.bold then p.bright[s.primary.value] else p.ansi[s.primary.value]
  }

  function BackgroundColour(p: Palette, s: Style): u32
    requires p.Valid() && s.Valid() && s.background.Some?
  {
    if s.bgBold then p.bright[s.background.value] else p.ansi[s.background.value]
  }

  /** An indexed colour in use is drawn with its intensity, and reverse video swaps the two. */
  ghost predicate Coherent(p: Palette, c: Colours)
    requires p.Valid() && c.style.Valid()
  {
    var s := c.style;
    && (s.primary.Some? ==> (if s.reverseVideo then c.bg else c.fg) == PrimaryColour(p, s))
    && (s.background.Some? ==> (if s.reverseVideo then c.fg else c.bg) == BackgroundColour(p, s))
  }

  /** Once both colours are indexed, coherence fixes both physical colours. */
  lemma CoherentPair(p: Palette, c: Colours)
    requires p.Valid() && c.style.Valid() && c.style.primary.Some? && c.style.background.Some?
    ensures Coherent(p, c) <==>
      (c.fg, c.bg) == if c.style.reverseVideo then (BackgroundColour(p, c.style), PrimaryColour(p, c.style))
                      else (PrimaryColour(p, c.style), BackgroundColour(p, c.style))
  {
  }

  lemma IntensityKept(p: Palette, c: Colours, v: u32)
    requires p.Valid() && c.style.Valid() && Coherent(p, c) && v in {0, 1, 5, 22, 25}
    ensures Coherent(p, Attribute(p, c, v))
  {
  }

  lemma ColourKept(p: Palette, c: Colours, v: u32)
    requires p.Valid() && c.style.Valid() && Coherent(p, c) && (30 <= v <= 37 || 40 <= v <= 47)
    ensures Coherent(p, Attribute(p, c, v))
  {
  }

  lemma OtherKept(p: Palette, c: Colours, v: u32)
    requires p.Valid() && c.style.Valid() && Coherent(p, c) && v !in {0, 1, 5, 22, 25}
    requires !(30 <= v <= 37) && !(40 <= v <= 47) && !(90 <= v <= 97) && !(100 <= v <= 107)
    ensures Coherent(p, Attribute(p, c, v))
  {
  }

  /** A bright colour is drawn bright whatever the intensity attribute says, so a plain state must not tell. */
  lemma BrightPrimary(p: Palette, v: u32)
    requires p.Valid() && 90 <= v <= 97
    ensures (forall c: Colours :: c.style.Valid() && Coherent(p, c) ==> Coherent(p, Attribute(p, c, v)))
      <==> p.bright[v - 90] == p.ansi[v - 90]
  {
    var plain := Colours(0, 0, PLAIN);
    assert Coherent(p, plain) && (Coherent(p, Attribute(p, plain, v)) <==> p.bright[v - 90] == p.ansi[v - 90]);
  }

  lemma BrightBackground(p: Palette, v: u32)
    requires p.Valid() && 100 <= v <= 107
    ensures (forall c: Colours :: c.style.Valid() && Coherent(p, c) ==> Coherent(p, Attribute(p, c, v)))
      <==> p.bright[v - 100] == p.ansi[v - 100]
  {
    var plain := Colours(0, 0, PLAIN);
    assert Coherent(p, plain) && (Coherent(p, Attribute(p, plain, v)) <==> p.bright[v - 100] == p.ansi[v - 100]);
  }

  /** A parameter other than 38 and 48, which take arguments, keeps every coherent state coherent exactly when it is
      not a bright colour that differs from its plain one. */
  lemma AttributeExact(p: Palette, v: u32)
    requires p.Valid() && v != 38 && v != 48
    ensures (forall c: Colours :: c.style.Valid() && Coherent(p, c) ==> Coherent(p, Attribute(p, c, v)))
      <==> ((90 <= v <= 97 ==> p.bright[v - 90] == p.ansi[v - 90])
            && (100 <= v <= 107 ==> p.bright[v - 100] == p.ansi[v - 100]))
  {
    hide Attribute, Coherent;
    if 90 <= v <= 97 {
      BrightPrimary(p, v);
    } else if 100 <= v <= 107 {
      BrightBackground(p, v);
    } else {
      forall c: Colours | c.style.Valid() && Coherent(p, c)
        ensures Coherent(p, Attribute(p, c, v))
      {
        AttributeKept(p, c, v);
      }
    }
  }

  lemma AttributeKept(p: Palette, c: Colours, v: u32)
    requires p.Valid() && c.style.Valid() && Coherent(p, c) && !(90 <= v <= 97) && !(100 <= v <= 107)
    ensures Coherent(p, Attribute(p, c, v))
  {
    hide Attribute, Coherent;
    if v in {0, 1, 5, 22, 25} {
      IntensityKept(p, c, v);
    } else if 30 <= v <= 37 || 40 <= v <= 47 {
      ColourKept(p, c, v);
    } else {
      OtherKept(p, c, v);
    }
  }

  /** 38 and 48 set a colour and leave the index, so they keep every coherent state coherent exactly when the palette
      has no other colour. */
  lemma DirectExact(p: Palette, fg: bool, colour: u32)
    requires p.Valid()
    ensures (forall c: Colours :: c.style.Valid() && Coherent(p, c) ==> Coherent(p, SetDirect(c, fg, colour)))
      <==> forall i :: 0 <= i < 8 ==> p.ansi[i] == colour && p.bright[i] == colour
  {
    forall i | 0 <= i < 8 && !(p.ansi[i] == colour && p.bright[i] == colour)
      ensures exists c: Colours :: c.style.Valid() && Coherent(p, c) && !Coherent(p, SetDirect(c, fg, colour))
    {
      var bold := p.ansi[i] == colour;
      var drawn := if bold then p.bright[i] else p.ansi[i];
      var c := if fg then Colours(drawn, 0, PLAIN.(primary := Some(i), bold := bold))
               else Colours(0, drawn, PLAIN.(background := Some(i), bgBold := bold));
      assert c.style.Valid() && Coherent(p, c) && !Coherent(p, SetDirect(c, fg, colour));
    }
    if forall i :: 0 <= i < 8 ==> p.ansi[i] == colour && p.bright[i] == colour {
      forall c: Colours | c.style.Valid() && Coherent(p, c)
        ensures Coherent(p, SetDirect(c, fg, colour))
      {
      }
    }
  }

  predicate Plain(v: u32) {
    !(90 <= v <= 97) && !(100 <= v <= 107) && v != 38 && v != 48
  }

  lemma AttributeCoherent(p: Palette, c: Colours, v: u32)
    requires p.Valid() && c.style.Valid() && Coherent(p, c) && Plain(v)
    ensures Coherent(p, Attribute(p, c, v))
  {
    AttributeKept(p, c, v);
    hide Attribute, Coherent;
  }

  /** A whole list of such parameters. */
  lemma {:induction false} SgrCoherent(tb: Tables, p: Palette, c: Colours, values: seq<u32>, count: nat, i: nat)
    requires p.Valid() && c.style.Valid() && Coherent(p, c) && i <= count <= |values|
    requires forall j :: i <= j < count ==> Plain(values[j])
    ensures Coherent(p, SgrFrom(tb, p, c, values, count, i))
    decreases count - i
  {
    if i < count {
      AttributeCoherent(p, c, values[i]);
      hide Attribute, Coherent, SetDirect, Indexed, Rgb;
      SgrCoherent(tb, p, Attribute(p, c, values[i]), values, count, i + 1);
    }
  }

  function ColoursOf(t: Term): Colours {
    Colours(t.display.fg, t.display.bg, t.style)
  }

  /** Feeding SGR with any list of such parameters keeps the terminal coherent and draws nothing. */
  lemma SgrBytes(tb: Tables, t: Term, vs: seq<nat>)
    requires Grounded(t)
    requires Coherent(t.display.palette, ColoursOf(t))
    requires forall v :: v in vs ==> Plain(v % WORD_MODULUS)
    ensures var r := Run(tb, t, [ESC, '[' as int] + Printed(vs) + ['m' as int]);
      Coherent(t.display.palette, ColoursOf(r)) && r.display == t.display.(fg := r.display.fg, bg := r.display.bg)
  {
    var bytes := [ESC, '[' as int] + Printed(vs);
    var c: u8 := 'm' as int;
    RoundTrip(tb, t, vs, c);
    RunNext(tb, t, bytes, c);
    var u := Run(tb, t, bytes);
    SgrFinal(tb, Advanced(u).(parser := Finish(Advanced(u).parser, c)));
    hide Run, Printed, FinalByte, PutChar, Finish, Coherent, Display.Sized, Parser.Valid, Outside, InSequence, Advanced;
  }

  lemma SgrFinal(tb: Tables, t: Term)
    requires t.Valid() && !t.parser.decPrivate && Coherent(t.display.palette, ColoursOf(t))
    requires forall i :: 0 <= i < t.parser.count ==> Plain(t.parser.values[i])
    ensures var r := FinalByte(tb, t, 'm' as int);
      Coherent(t.display.palette, ColoursOf(r)) && r.display == t.display.(fg := r.display.fg, bg := r.display.bg)
  {
    var p, values, count := t.display.palette, t.parser.values, t.parser.count;
    SgrCoherent(tb, p, ColoursOf(t), values, count, 0);
    AttributeExact(p, 0);
    hide Attribute, SgrFrom, Coherent, Edit, MoveCursor, Display.Sized, Parser.Valid;
  }
}
