/** Model of the root derangements.py. Its random_derangement, is_derangement,
    permutation_prod, permutation_inverse and random_derangements have the same bodies as
    those of the root main.py (module LegacyMain); what differs is the message, which numbers
    gifts ("Cadeau") and can name each gift with a label. */
module LegacyDerangements {
  import opened Outcomes
  import opened Text

  /** The line announcing the k-th gift (counted from 1), with its label when there is one. */
  function GiftLine(k: nat, giftLabel: Option<string>, giftee: string): string {
    match giftLabel
    case None => "Cadeau " + Decimal(k) + " : " + giftee
    case Some(l) => "Cadeau " + Decimal(k) + " (" + l + "): " + giftee
  }

  /** The label of gift k, if labels are given and there are enough of them. */
  function LabelOf(labels: Option<seq<string>>, k: nat): Option<string>
    requires labels.Some? ==> k < |labels.value|
  {
    if labels.None? then None else Some(labels.value[k])
  }

  /** One line per gift, in order. */
  function GiftLines(giftees: seq<string>, labels: Option<seq<string>>): (r: seq<string>)
    requires labels.Some? ==> |labels.value| >= |giftees|
    ensures |r| == |giftees|
  {
    seq(|giftees|, k requires 0 <= k < |giftees| => GiftLine(k + 1, LabelOf(labels, k), giftees[k]))
  }

  /** The lines of the message to `gifter`: a greeting, a blank line, then one line per gift. */
  function MessageLines(gifter: string, giftees: seq<string>, labels: Option<seq<string>>): (r: seq<string>)
    requires labels.Some? ==> |labels.value| >= |giftees|
    ensures |r| == |giftees| + 2
  {
    ["Hello " + gifter + " !", ""] + GiftLines(giftees, labels)
  }

  lemma GreetingIsFirstLines(gifter: string, labels: Option<seq<string>>)
    ensures Join(MessageLines(gifter, [], labels)) == "Hello " + gifter + " !\n"
  {
    var lines := MessageLines(gifter, [], labels);
    assert lines == ["Hello " + gifter + " !", ""];
    assert lines[..1] == ["Hello " + gifter + " !"];
  }

  /** The gift lines for the first i + 1 gifts are those for the first i and one more. */
  lemma GiftLinesSnoc(giftees: seq<string>, labels: Option<seq<string>>, i: nat)
    requires i < |giftees|
    requires labels.Some? ==> |labels.value| >= |giftees|
    ensures GiftLines(giftees[..i + 1], labels) ==
      GiftLines(giftees[..i], labels) + [GiftLine(i + 1, LabelOf(labels, i), giftees[i])]
  {
    var shorter := GiftLines(giftees[..i], labels);
    var longer := GiftLines(giftees[..i + 1], labels);
    forall k | 0 <= k < i
      ensures longer[k] == shorter[k]
    {
      assert giftees[..i + 1][k] == giftees[..i][k];
    }
  }

  /** Appending the text for gift i extends the message for the first i gifts. */
  lemma AppendLine(gifter: string, giftees: seq<string>, labels: Option<seq<string>>, i: nat)
    requires i < |giftees|
    requires labels.Some? ==> |labels.value| >= |giftees|
    ensures Join(MessageLines(gifter, giftees[..i], labels)) + ("\n" + GiftLine(i + 1, LabelOf(labels, i), giftees[i])) ==
      Join(MessageLines(gifter, giftees[..i + 1], labels))
  {
    var header := ["Hello " + gifter + " !", ""];
    var line := GiftLine(i + 1, LabelOf(labels, i), giftees[i]);
    GiftLinesSnoc(giftees, labels, i);
    assert header + (GiftLines(giftees[..i], labels) + [line]) == (header + GiftLines(giftees[..i], labels)) + [line];
    JoinSnoc(MessageLines(gifter, giftees[..i], labels), line);
  }

  /** `write_message(gifter, giftees, gift_labels)`: IndexError when labels are given but
      fewer than the gifts; otherwise the lines of the message joined by '\n'. */
  method WriteMessage(gifter: string, giftees: seq<string>, labels: Option<seq<string>>) returns (r: Result<string>)
    ensures r.Failure? <==> labels.Some? && |labels.value| < |giftees|
    ensures r.Failure? ==> r.error == IndexError
    ensures r.Success? ==> r.value == Join(MessageLines(gifter, giftees, labels))
  {
    var res := "Hello " + gifter + " !\n";
    if labels.Some? && |labels.value| < |giftees| {
      // the loop writes the lines before the first gift without a label, then fails
      return Failure(IndexError);
    }
    GreetingIsFirstLines(gifter, labels);
    assert giftees[..0] == [];
    for i := 0 to |giftees|
      invariant res == Join(MessageLines(gifter, giftees[..i], labels))
    {
      AppendLine(gifter, giftees, labels, i);
      if labels.None? {
        res := res + ("\n" + GiftLine(i + 1, None, giftees[i]));
      } else {
        res := res + ("\n" + GiftLine(i + 1, Some(labels.value[i]), giftees[i]));
      }
    }
    assert giftees[..|giftees|] == giftees;
    return Success(res);
  }

  /** A reader who splits the message at its line breaks finds the greeting and every gift
      line, in order, provided no name or label holds a line break. */
  lemma MessageReadsBack(gifter: string, giftees: seq<string>, labels: Option<seq<string>>)
    requires labels.Some? ==> |labels.value| >= |giftees|
    requires '\n' !in gifter && forall k :: 0 <= k < |giftees| ==> '\n' !in giftees[k]
    requires labels.Some? ==> forall k :: 0 <= k < |labels.value| ==> '\n' !in labels.value[k]
    ensures Split(Join(MessageLines(gifter, giftees, labels))) == MessageLines(gifter, giftees, labels)
  {
    var lines := MessageLines(gifter, giftees, labels);
    forall k | 0 <= k < |lines|
      ensures '\n' !in lines[k]
    {
      if k >= 2 {
        var d := Decimal(k - 1);
        assert forall c :: c in d ==> c != '\n';
        if labels.None? {
          assert lines[k] == "Cadeau " + d + " : " + giftees[k - 2];
        } else {
          assert lines[k] == "Cadeau " + d + " (" + labels.value[k - 2] + "): " + giftees[k - 2];
        }
      }
    }
    SplitJoin(lines);
  }
}
