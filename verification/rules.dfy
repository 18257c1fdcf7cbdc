/**
 * The keyword chain of the webhook handler written as data: an ordered table
 * of (keywords, message) rules scanned first-match-wins. This is an
 * independent reference for `Notifier.Respond`, and the scanning methods
 * compute the handler's answer from it.
 */
module RuleTable {
  import opened Wrappers
  import opened Text
  import opened Notifier

  /** A rule fires when the text contains any of its keywords. */
  datatype Rule = Rule(keywords: seq<string>, message: string)

  predicate Fires(r: Rule, t: string) {
    exists k :: k in r.keywords && Contains(t, k)
  }

  /** The handler's rules, highest priority first. */
  const Rules: seq<Rule> := [
    Rule(["tired"], TiredMessage),
    Rule(["break"], BreakMessage),
    Rule(["stressed", "stress"], StressMessage),
    Rule(["hungry"], HungryMessage),
    Rule(["help"], HelpMessage),
    Rule(["thank"], ThankMessage)
  ]

  /** The message of the first rule that fires on `t`, if any. */
  function FirstMatch(rules: seq<Rule>, t: string): (r: Option<string>) {
    if |rules| == 0 then None
    else if Fires(rules[0], t) then Some(rules[0].message)
    else FirstMatch(rules[1..], t)
  }

  /** `k` is the index of the first rule that fires, or `|rules|` when none does. */
  ghost predicate IsFirstFiring(rules: seq<Rule>, t: string, k: int) {
    && 0 <= k <= |rules|
    && (k < |rules| ==> Fires(rules[k], t))
    && forall j :: 0 <= j < k ==> !Fires(rules[j], t)
  }

  /** No two rules share a message. */
  ghost predicate DistinctMessages(rules: seq<Rule>) {
    forall i, j :: 0 <= i < j < |rules| ==> rules[i].message != rules[j].message
  }

  /** `FirstMatch` answers with the message of the first firing rule, and with nothing when none fires. */
  lemma {:induction false} FirstMatchAtFirstFiring(rules: seq<Rule>, t: string, k: int)
    requires IsFirstFiring(rules, t, k)
    ensures FirstMatch(rules, t) == if k < |rules| then Some(rules[k].message) else None
    decreases |rules|
  {
    if |rules| > 0 && k > 0 {
      assert !Fires(rules[0], t);
      assert IsFirstFiring(rules[1..], t, k - 1) by {
        forall j | 0 <= j < k - 1
          ensures !Fires(rules[1..][j], t)
        {
          assert rules[1..][j] == rules[j + 1];
        }
      }
      FirstMatchAtFirstFiring(rules[1..], t, k - 1);
    }
  }

  /**
   * With distinct messages, rule `i`'s message is the answer exactly when
   * rule `i` fires and no earlier rule does.
   */
  lemma FirstMatchPriority(rules: seq<Rule>, t: string, i: int)
    requires DistinctMessages(rules)
    requires 0 <= i < |rules|
    ensures FirstMatch(rules, t) == Some(rules[i].message)
            <==> Fires(rules[i], t) && forall j :: 0 <= j < i ==> !Fires(rules[j], t)
  {
    var k := FirstFiring(rules, t);
    FirstMatchAtFirstFiring(rules, t, k);
  }

  /** The index of the first rule that fires on `t`. */
  lemma {:induction false} FirstFiring(rules: seq<Rule>, t: string) returns (k: int)
    ensures IsFirstFiring(rules, t, k)
    decreases |rules|
  {
    if |rules| == 0 || Fires(rules[0], t) {
      k := 0;
    } else {
      var k' := FirstFiring(rules[1..], t);
      k := k' + 1;
      forall j | 0 <= j < k
        ensures !Fires(rules[j], t)
      {
        if j > 0 {
          assert rules[j] == rules[1..][j - 1];
        }
      }
    }
  }

  lemma RulesHaveDistinctMessages()
    ensures DistinctMessages(Rules)
  {
  }

  /** The if/elif chain is the first-match scan of the rule table, with the echo as default. */
  lemma RespondIsFirstMatch(t: string)
    ensures Respond(t) == ValueOr(FirstMatch(Rules, t), Fallback(t))
  {
    FiresOnRules(t);
    var k := FirstFiring(Rules, t);
    FirstMatchAtFirstFiring(Rules, t, k);
    if k < |Rules| {
      assert forall j :: 0 <= j < k ==> !Fires(Rules[j], t);
    }
  }

  /** What firing means for each rule of the table. */
  lemma FiresOnRules(t: string)
    ensures Fires(Rules[0], t) <==> Contains(t, "tired")
    ensures Fires(Rules[1], t) <==> Contains(t, "break")
    ensures Fires(Rules[2], t) <==> Contains(t, "stressed") || Contains(t, "stress")
    ensures Fires(Rules[3], t) <==> Contains(t, "hungry")
    ensures Fires(Rules[4], t) <==> Contains(t, "help")
    ensures Fires(Rules[5], t) <==> Contains(t, "thank")
  {
  }

  /** Whether rule `r` fires on `t`, trying its keywords in order. */
  method RuleFires(r: Rule, t: string) returns (b: bool)
    ensures b <==> Fires(r, t)
  {
    var i := 0;
    while i < |r.keywords|
      invariant 0 <= i <= |r.keywords|
      invariant forall j :: 0 <= j < i ==> !Contains(t, r.keywords[j])
    {
      if Contains(t, r.keywords[i]) {
        return true;
      }
      i := i + 1;
    }
    return false;
  }

  /** The index of the first rule of `rules` that fires on `t`, or `|rules|` when none does. */
  method ScanRules(rules: seq<Rule>, t: string) returns (k: nat)
    ensures k <= |rules|
    ensures k < |rules| ==> Fires(rules[k], t)
    ensures forall j :: 0 <= j < k ==> !Fires(rules[j], t)
  {
    k := 0;
    while k < |rules|
      invariant k <= |rules|
      invariant forall j :: 0 <= j < k ==> !Fires(rules[j], t)
    {
      var b := RuleFires(rules[k], t);
      if b {
        return;
      }
      k := k + 1;
    }
  }

  /** The webhook handler computed by scanning the rule table; it answers exactly as `Webhook`. */
  method WebhookByTable(uid: string, transcript: Transcript) returns (n: Notification)
    ensures n == Webhook(uid, transcript)
  {
    if !HasSegments(transcript) {
      return Notification(NoSegmentsMessage);
    }
    var t := Lower(LatestText(transcript));
    var k := ScanRules(Rules, t);
    FirstMatchAtFirstFiring(Rules, t, k);
    RespondIsFirstMatch(t);
    if k < |Rules| {
      n := Notification(Rules[k].message);
    } else {
      n := Notification(Fallback(t));
    }
  }
}
