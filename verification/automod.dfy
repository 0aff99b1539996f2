/** `AutoModerationActionExecution.handle`: decides whether an auto-moderation
    event gets a reply, and what reply. */
module Automod {
  import opened Types
  import opened Keyword
  import opened Template
  import opened Catalog

  /** The reply for an event, or `None` when the handler returns without
      sending: a missing or empty channel id or matched keyword, no catalog
      entry for the keyword, or an empty template. */
  function Handle(e: Event, c: Catalog): (r: Option<Response>)
    ensures r.Some? ==> Truthy(e.channelId) && Truthy(e.matchedKeyword)
    ensures r.Some? ==> r.value.channel == e.channelId.value
    ensures r.Some? ==> r.value.allowedUsers == [e.userId]
    ensures r.Some? ==> exists i :: IsLastFor(c, Normalize(e.matchedKeyword.value), i)
                                    && c[i].1 != [] && r.value.text == Format(c[i].1, e)
    ensures r.None? <==> || !Truthy(e.channelId) || !Truthy(e.matchedKeyword)
                         || forall i :: IsLastFor(c, Normalize(e.matchedKeyword.value), i) ==> c[i].1 == []
  {
    if !Truthy(e.channelId) || !Truthy(e.matchedKeyword) then None
    else
      var keyword := e.matchedKeyword.value;
      match Lookup(c, keyword)
      case None =>
        None
      case Some(template) =>
        var i :| 0 <= i < |c| && Normalize(c[i].0) == Normalize(keyword);
        LastForExists(c, Normalize(keyword), i);
        if template == [] then None
        else Some(Response(e.channelId.value, Format(template, e), [e.userId]))
  }

  /** What one invocation of the source's `handle` does: return without
      sending, send a reply, or reject its promise with a `TypeError`. */
  datatype Outcome = Silent | Sent(response: Response) | Rejected

  function AsOutcome(r: Option<Response>): Outcome {
    match r
    case None => Silent
    case Some(response) => Sent(response)
  }

  /** `handle` as the source writes it: the lookup also sees names inherited
      from `Object.prototype`, whose truthy non-string values reach
      `template.replaceAll` outside the `try` and throw; the formatter is the
      built-in one. Whatever the event holds, it replies exactly when both
      guards pass and the last matching template is non-empty; the reply goes
      to the event's channel and may mention only the triggering user. */
  function HandleAsWritten(e: Event, c: Catalog): (r: Outcome)
    ensures r.Sent? ==> Truthy(e.channelId) && Truthy(e.matchedKeyword)
    ensures r.Sent? ==> r.response.channel == e.channelId.value
    ensures r.Sent? ==> r.response.allowedUsers == [e.userId]
    ensures r.Sent? ==> exists i :: IsLastFor(c, Normalize(e.matchedKeyword.value), i)
                                    && c[i].1 != [] && r.response.text == FormatAsWritten(c[i].1, e)
    ensures r.Sent? <==> && Truthy(e.channelId) && Truthy(e.matchedKeyword)
                         && exists i :: IsLastFor(c, Normalize(e.matchedKeyword.value), i) && c[i].1 != []
    ensures r == Rejected <==> && Truthy(e.channelId) && Truthy(e.matchedKeyword)
                               && Normalize(e.matchedKeyword.value) in InheritedNames
                               && Lookup(c, e.matchedKeyword.value).None?
    ensures && (e.matchedKeyword.Some? ==> Normalize(e.matchedKeyword.value) !in InheritedNames)
            && '$' !in Mention(e) && '$' !in KeywordValue(e) && '$' !in ContentValue(e)
            ==> r == AsOutcome(Handle(e, c))
  {
    if !Truthy(e.channelId) || !Truthy(e.matchedKeyword) then Silent
    else
      match PropertyLookup(c, e.matchedKeyword.value)
      case Missing => Silent
      case Inherited => Rejected
      case Own(template) =>
        var keyword := e.matchedKeyword.value;
        var i :| 0 <= i < |c| && Normalize(c[i].0) == Normalize(keyword);
        LastForExists(c, Normalize(keyword), i);
        if template == [] then Silent
        else Sent(Response(e.channelId.value, FormatAsWritten(template, e), [e.userId]))
  }

  /** A catalog that failed to load answers no event, in the source's handler
      as in the corrected one. */
  lemma LoadFailureSendsNothing(e: Event)
    ensures Handle(e, Load(None)) == None
    ensures !HandleAsWritten(e, Load(None)).Sent?
  {
  }

  /** A keyword that normalises to an inherited property name and has no
      catalog entry makes the source's `handle` throw; the intended handler
      stays silent. */
  lemma InheritedNameRejects(e: Event, c: Catalog)
    requires Truthy(e.channelId) && Truthy(e.matchedKeyword)
    requires Normalize(e.matchedKeyword.value) in InheritedNames
    requires forall i :: 0 <= i < |c| ==> Normalize(c[i].0) != Normalize(e.matchedKeyword.value)
    ensures HandleAsWritten(e, c) == Rejected
    ensures Handle(e, c) == None
  {
  }

  /** `constructor` is already in normal form. */
  lemma NormalizeConstructor(k: string)
    requires k == "constructor"
    ensures Normalize(k) == k
  {
    assert JsString.IsLower(k);
    assert JsString.IsTrimmed(k);
    NormalizeFixedPoints(k);
  }

  /** An event whose matched keyword is `constructor`, with an empty
      catalog: the source's `handle` throws, the intended one sends nothing. */
  lemma ConstructorKeywordRejects(e: Event)
    requires e.channelId == Some("7") && e.matchedKeyword == Some("constructor")
    ensures HandleAsWritten(e, []) == Rejected
    ensures Handle(e, []) == None
  {
    NormalizeConstructor(e.matchedKeyword.value);
    InheritedNameRejects(e, []);
  }

  // A worked example, built up in small steps: the catalog entry
  // "spam" -> SpamTemplate, the template as pieces, its rendering and filling.
  // The strings are spelt as right-nested concatenations, one part per piece,
  // so that each step matches the shape `Render` and `Fill` unfold to and the
  // verifier never has to split a long literal.

  lemma NormalizeSpam()
    ensures Normalize("SPAM") == "spam" && Normalize("spam") == "spam"
  {
    assert JsString.IsTrimmed("SPAM") by {
      assert !JsString.IsWhiteSpace('S') && !JsString.IsWhiteSpace('M');
    }
    NormalizeOfTrimmed("SPAM");
    assert JsString.ToLower("SPAM") == "spam" by {
      assert forall i :: 0 <= i < 4 ==> JsString.IsUpper("SPAM"[i]);
    }
    NormalizeFixedPoints("spam");
  }

  const SpamTemplate := "Hi {user}, no {keyword} here: {content}"

  function SpamPieces(): seq<Piece> {
    [Text("Hi "), Hole(UserSlot), Text(", no "), Hole(KeywordSlot), Text(" here: "), Hole(ContentSlot)]
  }

  lemma SpamRender()
    ensures Render(SpamPieces())
         == "Hi " + ("{user}" + (", no " + ("{keyword}" + (" here: " + ("{content}" + [])))))
  {
    var ps := SpamPieces();
    RenderCons(ps, 0);
    RenderCons(ps, 1);
    RenderCons(ps, 2);
    RenderCons(ps, 3);
    RenderCons(ps, 4);
    RenderCons(ps, 5);
    assert ps[6..] == [] && ps[0..] == ps;
  }

  lemma SpamTemplateParts()
    ensures "Hi " + ("{user}" + (", no " + ("{keyword}" + (" here: " + ("{content}" + [])))))
         == SpamTemplate
  {
  }

  lemma SpamTextsBraceFree()
    ensures TextsBraceFree(SpamPieces())
  {
  }

  lemma SpamMessageParts()
    ensures "Hi " + ("<@42>" + (", no " + ("SPAM" + (" here: " + ("buy now" + [])))))
         == "Hi <@42>, no SPAM here: buy now"
  {
  }

  lemma SpamPiecesSpellTemplate()
    ensures Render(SpamPieces()) == SpamTemplate
  {
    SpamRender();
    SpamTemplateParts();
  }

  lemma SpamFill(e: Event)
    requires e == Event("42", Some("7"), Some("SPAM"), Some("buy now"), None)
    ensures Fill(SpamPieces(), e)
         == "Hi " + ("<@42>" + (", no " + ("SPAM" + (" here: " + ("buy now" + [])))))
  {
    var ps := SpamPieces();
    assert Mention(e) == "<@42>" && KeywordValue(e) == "SPAM" && ContentValue(e) == "buy now";
    assert PieceValue(ps[1], e) == "<@42>";
    assert PieceValue(ps[3], e) == "SPAM";
    assert PieceValue(ps[5], e) == "buy now";
    FillCons(ps, 0, e);
    FillCons(ps, 1, e);
    FillCons(ps, 2, e);
    FillCons(ps, 3, e);
    FillCons(ps, 4, e);
    FillCons(ps, 5, e);
    assert ps[6..] == [] && ps[0..] == ps;
  }

  lemma SpamFormat(e: Event)
    requires e == Event("42", Some("7"), Some("SPAM"), Some("buy now"), None)
    ensures Format(SpamTemplate, e) == "Hi <@42>, no SPAM here: buy now"
  {
    SpamPiecesSpellTemplate();
    SpamTextsBraceFree();
    assert '{' !in e.userId && '{' !in KeywordValue(e);
    FormatFillsHoles(SpamPieces(), e);
    SpamFill(e);
    SpamMessageParts();
  }

  /** The catalog key `spam` answers the keyword `SPAM`. */
  lemma SpamLookup()
    ensures Lookup([("spam", SpamTemplate)], "SPAM") == Some(SpamTemplate)
  {
    var c := [("spam", SpamTemplate)];
    NormalizeSpam();
    assert IsLastFor(c, Normalize("SPAM"), 0);
  }

  /** The catalog `{"spam": "Hi {user}, no {keyword} here: {content}"}` and
      an event from user 42 in channel 7 matching `SPAM` in `buy now`: the
      reply goes to channel 7, quotes the keyword as the event spells it, and
      may only mention user 42. */
  lemma SpamExample(e: Event)
    requires e == Event("42", Some("7"), Some("SPAM"), Some("buy now"), None)
    ensures Handle(e, [("spam", SpamTemplate)])
         == Some(Response("7", "Hi <@42>, no SPAM here: buy now", ["42"]))
  {
    SpamLookup();
    SpamFormat(e);
  }
}
