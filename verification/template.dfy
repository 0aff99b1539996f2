/** `formatAutomodMessage`: fills the `{user}`, `{keyword}` and `{content}`
    placeholders of a catalog template from the event. */
module Template {
  import opened Types
  import opened Replace

  /** The three placeholders the formatter knows. */
  datatype Slot = UserSlot | KeywordSlot | ContentSlot

  function Placeholder(slot: Slot): (p: string)
    ensures |p| >= 2 && p[0] == '{' && p[|p| - 1] == '}'
  {
    match slot
    case UserSlot => "{user}"
    case KeywordSlot => "{keyword}"
    case ContentSlot => "{content}"
  }

  /** `{user}` becomes a mention of the triggering user. */
  function Mention(e: Event): string {
    "<@" + e.userId + ">"
  }

  /** `{keyword}` becomes the matched keyword as the event spells it, or
      nothing when it is null or undefined. */
  function KeywordValue(e: Event): string {
    match e.matchedKeyword
    case Some(k) => k
    case None => ""
  }

  /** `{content}` becomes the matched content, else the message content, else
      nothing; only null or undefined fall through, an empty string does not. */
  function ContentValue(e: Event): string {
    match (e.matchedContent, e.content)
    case (Some(m), _) => m
    case (None, Some(c)) => c
    case (None, None) => ""
  }

  function SlotValue(slot: Slot, e: Event): string {
    match slot
    case UserSlot => Mention(e)
    case KeywordSlot => KeywordValue(e)
    case ContentSlot => ContentValue(e)
  }

  /** The formatter with literal replacement: `{user}` everywhere, then
      `{keyword}` in that result, then `{content}` in that result. A template
      that mentions none of the three placeholders is sent as it is; unknown
      placeholders such as `{channel}` stay verbatim. `FormatFillsHoles`
      describes the result when placeholders do occur. */
  function Format(template: string, e: Event): (r: string)
    ensures && !Occurs(template, Placeholder(UserSlot))
            && !Occurs(template, Placeholder(KeywordSlot))
            && !Occurs(template, Placeholder(ContentSlot))
            ==> r == template
  {
    var withUser := ReplaceAll(template, Placeholder(UserSlot), Mention(e));
    var withKeyword := ReplaceAll(withUser, Placeholder(KeywordSlot), KeywordValue(e));
    var r := ReplaceAll(withKeyword, Placeholder(ContentSlot), ContentValue(e));
    if !Occurs(template, Placeholder(UserSlot)) && !Occurs(template, Placeholder(KeywordSlot))
       && !Occurs(template, Placeholder(ContentSlot))
    then
      ReplaceAllNoOccurrence(template, Placeholder(UserSlot), Mention(e));
      ReplaceAllNoOccurrence(template, Placeholder(KeywordSlot), KeywordValue(e));
      ReplaceAllNoOccurrence(template, Placeholder(ContentSlot), ContentValue(e));
      r
    else r
  }

  /** The formatter as the source writes it: the same three passes through
      the built-in `replaceAll`, whose string replacement expands `$`
      patterns. A template without any of the three placeholders is still
      sent as it is, whatever the values hold. */
  function FormatAsWritten(template: string, e: Event): (r: string)
    ensures '$' !in Mention(e) && '$' !in KeywordValue(e) && '$' !in ContentValue(e)
            ==> r == Format(template, e)
    ensures && !Occurs(template, Placeholder(UserSlot))
            && !Occurs(template, Placeholder(KeywordSlot))
            && !Occurs(template, Placeholder(ContentSlot))
            ==> r == template
  {
    var withUser := JsReplaceAll(template, Placeholder(UserSlot), Mention(e));
    var withKeyword := JsReplaceAll(withUser, Placeholder(KeywordSlot), KeywordValue(e));
    JsReplaceAll(withKeyword, Placeholder(ContentSlot), ContentValue(e))
  }

  /** A template seen as literal text interleaved with placeholders. */
  datatype Piece = Text(text: string) | Hole(slot: Slot)

  function PieceString(p: Piece): string {
    match p
    case Text(t) => t
    case Hole(slot) => Placeholder(slot)
  }

  /** The template text the pieces spell. */
  function Render(ps: seq<Piece>): string
    decreases |ps|
  {
    if ps == [] then [] else PieceString(ps[0]) + Render(ps[1..])
  }

  lemma RenderCons(ps: seq<Piece>, i: nat)
    requires i < |ps|
    ensures Render(ps[i..]) == PieceString(ps[i]) + Render(ps[i + 1..])
  {
    assert ps[i..][1..] == ps[i + 1..];
  }

  /** What a piece reads as in the intended message. */
  function PieceValue(p: Piece, e: Event): string {
    match p
    case Text(t) => t
    case Hole(slot) => SlotValue(slot, e)
  }

  /** The intended message: each placeholder replaced by its value, all at
      once, and literal text kept. */
  function Fill(ps: seq<Piece>, e: Event): string
    decreases |ps|
  {
    if ps == [] then [] else PieceValue(ps[0], e) + Fill(ps[1..], e)
  }

  lemma FillCons(ps: seq<Piece>, i: nat, e: Event)
    requires i < |ps|
    ensures Fill(ps[i..], e) == PieceValue(ps[i], e) + Fill(ps[i + 1..], e)
  {
    assert ps[i..][1..] == ps[i + 1..];
  }

  /** Turns every hole for `slot` into the literal text `v`. */
  function Plug(ps: seq<Piece>, slot: Slot, v: string): (r: seq<Piece>)
    ensures |r| == |ps|
    decreases |ps|
  {
    if ps == [] then []
    else
      var head := if ps[0] == Hole(slot) then Text(v) else ps[0];
      [head] + Plug(ps[1..], slot, v)
  }

  /** No literal text piece contains an opening brace, so every brace of the
      rendered template opens one of the placeholders. */
  predicate TextsBraceFree(ps: seq<Piece>) {
    forall p :: p in ps && p.Text? ==> '{' !in p.text
  }

  /** Inside a placeholder, an occurrence of a placeholder can only be that
      same placeholder, at its start. */
  lemma PlaceholderMatch(h: Slot, slot: Slot, rest: string, i: int)
    requires 0 <= i < |Placeholder(h)|
    requires OccursAt(Placeholder(h) + rest, Placeholder(slot), i)
    ensures i == 0 && h == slot
  {
    var x := Placeholder(h);
    var pat := Placeholder(slot);
    assert (x + rest)[i] == pat[0];
    assert forall j :: 0 < j < |x| ==> x[j] != '{';
    assert (x + rest)[1] == pat[1];
    assert x[1] == pat[1];
  }

  /** A piece never starts an occurrence that runs past its own end. */
  lemma PieceNoStraddle(p: Piece, rest: string, slot: Slot)
    requires p.Text? ==> '{' !in p.text
    ensures NoStraddle(PieceString(p), rest, Placeholder(slot))
  {
    var x := PieceString(p);
    var pat := Placeholder(slot);
    forall i | 0 <= i < |x| < i + |pat| && OccursAt(x + rest, pat, i)
      ensures false
    {
      assert (x + rest)[i] == pat[0];
      if p.Hole? {
        PlaceholderMatch(p.slot, slot, rest, i);
      }
    }
  }

  /** One pass over a single piece plugs that piece. */
  lemma ReplacePiece(p: Piece, slot: Slot, v: string)
    requires p.Text? ==> '{' !in p.text
    ensures ReplaceAll(PieceString(p), Placeholder(slot), v)
         == PieceString(if p == Hole(slot) then Text(v) else p)
  {
    var x := PieceString(p);
    var pat := Placeholder(slot);
    if p == Hole(slot) {
      assert x[|pat|..] == [];
    } else {
      forall i | 0 <= i <= |x| && OccursAt(x, pat, i)
        ensures false
      {
        assert x[i] == pat[0];
        if p.Hole? {
          assert x + [] == x;
          PlaceholderMatch(p.slot, slot, [], i);
        }
      }
      ReplaceAllNoOccurrence(x, pat, v);
    }
  }

  /** One `replaceAll` pass over a template whose literal text has no
      brace replaces exactly the holes for its placeholder. */
  lemma {:induction false} PlugRender(ps: seq<Piece>, slot: Slot, v: string)
    requires TextsBraceFree(ps)
    ensures ReplaceAll(Render(ps), Placeholder(slot), v) == Render(Plug(ps, slot, v))
    decreases |ps|
  {
    if ps == [] {
    } else {
      assert ps[0] in ps;
      assert TextsBraceFree(ps[1..]) by {
        forall p | p in ps[1..] ensures p in ps { }
      }
      PieceNoStraddle(ps[0], Render(ps[1..]), slot);
      ReplaceAllAppend(PieceString(ps[0]), Render(ps[1..]), Placeholder(slot), v);
      ReplacePiece(ps[0], slot, v);
      PlugRender(ps[1..], slot, v);
    }
  }

  /** Plugging brace-free text keeps the literal text brace-free. */
  lemma {:induction false} PlugKeepsBraceFree(ps: seq<Piece>, slot: Slot, v: string)
    requires TextsBraceFree(ps) && '{' !in v
    ensures TextsBraceFree(Plug(ps, slot, v))
    decreases |ps|
  {
    if ps != [] {
      assert ps[0] in ps;
      assert TextsBraceFree(ps[1..]) by {
        forall p | p in ps[1..] ensures p in ps { }
      }
      PlugKeepsBraceFree(ps[1..], slot, v);
    }
  }

  /** Plugging the three slots with their values in turn is filling. */
  lemma {:induction false} PlugAllIsFill(ps: seq<Piece>, e: Event)
    ensures Render(Plug(Plug(Plug(ps, UserSlot, Mention(e)), KeywordSlot, KeywordValue(e)),
                        ContentSlot, ContentValue(e)))
         == Fill(ps, e)
    decreases |ps|
  {
    if ps != [] {
      PlugAllIsFill(ps[1..], e);
    }
  }

  /** The formatter fills every placeholder with its value and keeps all
      other text, provided nothing a later pass scans can form a new
      placeholder: literal text, the user id and the keyword have no brace.
      The content, inserted by the last pass, may hold anything and is kept
      verbatim. */
  lemma FormatFillsHoles(ps: seq<Piece>, e: Event)
    requires TextsBraceFree(ps)
    requires '{' !in e.userId && '{' !in KeywordValue(e)
    ensures Format(Render(ps), e) == Fill(ps, e)
  {
    var m, k, c := Mention(e), KeywordValue(e), ContentValue(e);
    assert '{' !in m;
    var ps1 := Plug(ps, UserSlot, m);
    var ps2 := Plug(ps1, KeywordSlot, k);
    PlugRender(ps, UserSlot, m);
    PlugKeepsBraceFree(ps, UserSlot, m);
    PlugRender(ps1, KeywordSlot, k);
    PlugKeepsBraceFree(ps1, KeywordSlot, k);
    PlugRender(ps2, ContentSlot, c);
    PlugAllIsFill(ps, e);
  }

  /** The passes run one after another: a keyword that itself reads
      `{content}` is expanded again by the content pass. */
  lemma FormatRunsInSequence(e: Event)
    requires e.matchedKeyword == Some("{content}")
    ensures Format(Placeholder(KeywordSlot), e) == ContentValue(e)
  {
    var k := Placeholder(KeywordSlot);
    assert Render([Hole(KeywordSlot)]) == k;
    PlugRender([Hole(KeywordSlot)], UserSlot, Mention(e));
    ReplacePiece(Hole(KeywordSlot), KeywordSlot, KeywordValue(e));
    ReplacePiece(Hole(ContentSlot), ContentSlot, ContentValue(e));
  }

  /** The built-in's replacement `$&` stands for the matched text. */
  lemma DollarAmpersandIsMatch(pat: string)
    requires pat != []
    ensures JsReplaceAll(pat, pat, "$&") == pat
  {
    assert pat[..0] == [] && pat[|pat|..] == [] && pat[0..|pat|] == pat;
    assert Substitution("$&", pat, [], []) == pat by {
      assert "$&"[2..] == [];
    }
    assert JsReplaceAllFrom(pat, pat, "$&", |pat|) == [];
  }

  /** Message content `$&` is not inserted as written: the built-in expands
      it to the matched placeholder, so the message reads `{content}`. */
  lemma FormatAsWrittenExpandsDollar(e: Event)
    requires e.matchedContent == Some("$&")
    requires '$' !in e.userId && '$' !in KeywordValue(e)
    ensures FormatAsWritten(Placeholder(ContentSlot), e) == Placeholder(ContentSlot)
    ensures Format(Placeholder(ContentSlot), e) == "$&"
  {
    var c := Placeholder(ContentSlot);
    assert ContentValue(e) == "$&";
    assert '$' !in Mention(e);
    ReplacePiece(Hole(ContentSlot), UserSlot, Mention(e));
    ReplacePiece(Hole(ContentSlot), KeywordSlot, KeywordValue(e));
    ReplacePiece(Hole(ContentSlot), ContentSlot, "$&");
    var withUser := JsReplaceAll(c, Placeholder(UserSlot), Mention(e));
    assert withUser == c;
    var withKeyword := JsReplaceAll(withUser, Placeholder(KeywordSlot), KeywordValue(e));
    assert withKeyword == c;
    DollarAmpersandIsMatch(c);
  }
}
