/** What the webhook handler promises, stated over `Notifier.Webhook`. */
module NotifierProperties {
  import opened Wrappers
  import opened Text
  import opened Notifier
  import opened RuleTable

  /** Every text containing "stressed" contains "stress", so the third test of the chain is just "stress". */
  lemma StressedContainsStress(t: string)
    ensures Contains(t, "stressed") ==> Contains(t, "stress")
    ensures Contains(t, "stressed") || Contains(t, "stress") <==> Contains(t, "stress")
  {
    if Contains(t, "stressed") {
      StartsWithContains("stressed", "stress");
      ContainsTransitive(t, "stressed", "stress");
    }
  }

  /** Rule `i` of the table fires exactly when the text contains keyword `i`; "stressed" adds nothing to the third rule. */
  lemma FiresIffKeyword(t: string, i: int)
    requires 0 <= i < |Rules|
    ensures |Keywords| == |Rules| && Rules[i].message == KeywordMessages[i]
    ensures Fires(Rules[i], t) <==> Contains(t, Keywords[i])
  {
    FiresOnRules(t);
    StressedContainsStress(t);
  }

  /** First match wins: reply `i` is given exactly when keyword `i` occurs and no earlier keyword does. */
  lemma RespondPriority(t: string, i: int)
    requires 0 <= i < |KeywordMessages|
    ensures Respond(t) == KeywordMessages[i]
            <==> Contains(t, Keywords[i]) && forall j :: 0 <= j < i ==> !Contains(t, Keywords[j])
  {
    RespondIsFirstMatch(t);
    RulesHaveDistinctMessages();
    FallbackNotCanned(t);
    FirstMatchPriority(Rules, t, i);
    forall j | 0 <= j <= i
      ensures Fires(Rules[j], t) <==> Contains(t, Keywords[j])
    {
      FiresIffKeyword(t, j);
    }
    FiresIffKeyword(t, i);
    if Respond(t) == KeywordMessages[i] {
      assert FirstMatch(Rules, t) == Some(Rules[i].message);
    }
  }

  /** The echo is the reply exactly when none of the six keywords occurs. */
  lemma RespondFallbackIff(t: string)
    ensures Respond(t) == Fallback(t) <==> !MentionsKeyword(t)
  {
    RespondIsFirstMatch(t);
    FallbackNotCanned(t);
    forall j | 0 <= j < |Rules|
      ensures Fires(Rules[j], t) <==> Contains(t, Keywords[j])
    {
      FiresIffKeyword(t, j);
    }
    var k := FirstFiring(Rules, t);
    FirstMatchAtFirstFiring(Rules, t, k);
    MentionsSomeKeyword(t);
    if k < |Rules| {
      assert Rules[k].message in KeywordMessages;
      assert Contains(t, Keywords[k]);
    }
  }

  /** Mentioning a keyword is containing the keyword at some index of the list. */
  lemma MentionsSomeKeyword(t: string)
    ensures MentionsKeyword(t) <==> exists j :: 0 <= j < |Keywords| && Contains(t, Keywords[j])
  {
  }

  /**
   * For a payload with segments, reply `i` is given exactly when the
   * lower-cased last text contains keyword `i` and no earlier keyword.
   */
  lemma WebhookPriority(uid: string, transcript: Transcript, i: int)
    requires HasSegments(transcript)
    requires 0 <= i < |KeywordMessages|
    ensures var t := Lower(LatestText(transcript));
            Webhook(uid, transcript).message == KeywordMessages[i]
            <==> Contains(t, Keywords[i]) && forall j :: 0 <= j < i ==> !Contains(t, Keywords[j])
  {
    RespondPriority(Lower(LatestText(transcript)), i);
  }

  /** A "tired" in the last text wins over every other keyword. */
  lemma TiredAlwaysWins(uid: string, transcript: Transcript)
    requires HasSegments(transcript)
    requires Contains(Lower(LatestText(transcript)), "tired")
    ensures Webhook(uid, transcript).message == TiredMessage
  {
  }

  /**
   * For a payload with segments, the reply echoes the lower-cased last text
   * exactly when none of the six keywords occurs in it.
   */
  lemma WebhookFallbackIff(uid: string, transcript: Transcript)
    requires HasSegments(transcript)
    ensures var t := Lower(LatestText(transcript));
            Webhook(uid, transcript).message == Fallback(t) <==> !MentionsKeyword(t)
  {
    RespondFallbackIff(Lower(LatestText(transcript)));
  }

  /** Segments before the last one never affect the reply. */
  lemma OnlyLastSegmentMatters(uid: string, earlier: seq<Segment>, segs: seq<Segment>)
    requires |segs| > 0
    ensures Webhook(uid, Transcript(Some(earlier + segs))) == Webhook(uid, Transcript(Some(segs)))
  {
  }

  /** A last segment without `text` is answered as empty text: the echo of "". */
  lemma MissingTextEchoesEmpty(uid: string, earlier: seq<Segment>)
    ensures Webhook(uid, Transcript(Some(earlier + [Segment(None)]))).message == "Received transcript: ''"
  {
  }

  /** Texts that differ only in letter case get the same reply. */
  lemma CaseInsensitive(uid: string, earlier: seq<Segment>, a: string, b: string)
    requires CaseVariants(a, b)
    ensures Webhook(uid, Transcript(Some(earlier + [Segment(Some(a))])))
            == Webhook(uid, Transcript(Some(earlier + [Segment(Some(b))])))
  {
    LowerEqualIffCaseVariants(a, b);
    assert LatestText(Transcript(Some(earlier + [Segment(Some(a))]))) == a;
    assert LatestText(Transcript(Some(earlier + [Segment(Some(b))]))) == b;
  }

  /** The user identifier plays no part in the reply. */
  lemma UidIgnored(uid1: string, uid2: string, transcript: Transcript)
    ensures Webhook(uid1, transcript) == Webhook(uid2, transcript)
  {
  }

  /** For a payload with segments, the reply is the chain's answer to the lower-cased last text `t`. */
  lemma WebhookAnswersLatest(uid: string, transcript: Transcript, t: string)
    requires HasSegments(transcript) && Lower(LatestText(transcript)) == t
    ensures Webhook(uid, transcript).message == Respond(t)
  {
  }

  /** "i am happy" holds no keyword and is echoed. */
  lemma RespondToHappy()
    ensures Respond("i am happy") == "Received transcript: 'i am happy'"
  {
    NoKeywordFromLetters("i am happy", 't', 'b', 's', 'u', 'l', 't');
    RespondFallbackIff("i am happy");
  }

  /** "i'm stressed" holds neither "tired" nor "break", and holds "stressed". */
  lemma RespondToStressed()
    ensures Respond("i'm stressed") == StressMessage
  {
    var t := "i'm stressed";
    assert t == "i'm" + " " + "stressed";
    AbsentCharExcludes("i'm", "tired", 't');
    AbsentCharExcludes("stressed", "tired", 'i');
    ContainsAcrossSpace("i'm", "stressed", "tired");
    AbsentCharExcludes(t, "break", 'b');
    assert OccursAt(t, "stressed", 4);
  }

  /** "nice weather" holds no keyword, word by word. */
  lemma WeatherHasNoKeyword()
    ensures !MentionsKeyword("nice weather")
  {
    NoKeywordFromLetters("nice", 't', 'b', 't', 'h', 'h', 't');
    NoKeywordFromLetters("weather", 'i', 'b', 's', 'u', 'l', 'k');
    NoKeywordAcrossSpace("nice", "weather");
    assert "nice" + " " + "weather" == "nice weather";
  }

  /** "nice weather" is echoed. */
  lemma RespondToWeather()
    ensures Respond("nice weather") == "Received transcript: 'nice weather'"
  {
    WeatherHasNoKeyword();
    RespondFallbackIff("nice weather");
  }

  /** Segments "I am tired" then "I am happy": only the second is read, and it matches nothing. */
  lemma ExampleLastSegmentOnly()
    ensures Webhook("u", Transcript(Some([Segment(Some("I am tired")), Segment(Some("I am happy"))]))).message
            == "Received transcript: 'i am happy'"
  {
    var tr := Transcript(Some([Segment(Some("I am tired")), Segment(Some("I am happy"))]));
    assert Lower(LatestText(tr)) == "i am happy";
    RespondToHappy();
    WebhookAnswersLatest("u", tr, "i am happy");
  }

  /** An upper-case keyword still matches. */
  lemma ExampleUpperCaseStress()
    ensures Webhook("u", Transcript(Some([Segment(Some("I'm STRESSED"))]))).message == StressMessage
  {
    var tr := Transcript(Some([Segment(Some("I'm STRESSED"))]));
    assert Lower(LatestText(tr)) == "i'm stressed";
    RespondToStressed();
    WebhookAnswersLatest("u", tr, "i'm stressed");
  }

  /** A text with no keyword is echoed in lower case. */
  lemma ExampleNoKeyword()
    ensures Webhook("u", Transcript(Some([Segment(Some("Nice weather"))]))).message
            == "Received transcript: 'nice weather'"
  {
    var tr := Transcript(Some([Segment(Some("Nice weather"))]));
    assert Lower(LatestText(tr)) == "nice weather";
    RespondToWeather();
    WebhookAnswersLatest("u", tr, "nice weather");
  }

  /** A text that lacks one letter of each keyword (and so of "stressed") mentions no keyword. */
  lemma NoKeywordFromLetters(t: string, c0: char, c1: char, c2: char, c3: char, c4: char, c5: char)
    requires c0 in "tired" && c0 !in t
    requires c1 in "break" && c1 !in t
    requires c2 in "stress" && c2 !in t
    requires c3 in "hungry" && c3 !in t
    requires c4 in "help" && c4 !in t
    requires c5 in "thank" && c5 !in t
    ensures !MentionsKeyword(t)
    ensures !Contains(t, "stressed")
  {
    AbsentCharExcludes(t, "tired", c0);
    AbsentCharExcludes(t, "break", c1);
    AbsentCharExcludes(t, "stress", c2);
    AbsentCharExcludes(t, "hungry", c3);
    AbsentCharExcludes(t, "help", c4);
    AbsentCharExcludes(t, "thank", c5);
    StressedContainsStress(t);
  }

  /** Joining two keyword-free texts with a space gives a keyword-free text. */
  lemma NoKeywordAcrossSpace(a: string, b: string)
    requires !MentionsKeyword(a) && !MentionsKeyword(b)
    ensures !MentionsKeyword(a + " " + b)
    ensures !Contains(a + " " + b, "stressed")
  {
    forall k | k in Keywords
      ensures !Contains(a + " " + b, k)
    {
      ContainsAcrossSpace(a, b, k);
    }
    StressedContainsStress(a + " " + b);
  }
}
