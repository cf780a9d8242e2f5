/**
 * `get_openrouter_advice` in app.py: what becomes of the chat service's
 * reply. The HTTP exchange itself is abstracted into `HttpOutcome`; the
 * model covers how the reply text is turned into markdown bullets and which
 * message each kind of outcome yields.
 */
module Advice {
  import opened Text

  // ---------------------------------------------------------------- formatting

  /** The separator the page puts before every bullet: a newline, a dash, a space. */
  const Bullet: string := "\n- "

  /** `[line.strip() for line in lines if line.strip()]`: the stripped lines,
      blank ones dropped. */
  function ConciseLines(lines: seq<string>): (items: seq<string>)
    ensures |items| <= |lines|
    ensures forall k :: 0 <= k < |items| ==>
      items[k] != [] && !IsSpace(items[k][0]) && !IsSpace(items[k][|items[k]| - 1])
  {
    if lines == [] then []
    else
      var head := Strip(lines[0]);
      var rest := ConciseLines(lines[1..]);
      if head != [] then
        assert !IsSpace(head[0]) && !IsSpace(head[|head| - 1]);
        [head] + rest
      else rest
  }

  /** The bullet items of a reply: its lines, split on "\n", stripped, blanks
      dropped. Every item is non-empty, has no whitespace at either end and
      holds no newline. */
  function AdviceItems(advice: string): (items: seq<string>)
    ensures forall k :: 0 <= k < |items| ==>
      && items[k] != [] && !IsSpace(items[k][0]) && !IsSpace(items[k][|items[k]| - 1])
      && '\n' !in items[k]
  {
    var lines := Split(advice, '\n');
    ConciseLinesKeepOnlyInputChars(lines, '\n');
    ConciseLines(lines)
  }

  /** The display text of a reply: `"\n- " + "\n- ".join(items)`. */
  function FormatAdvice(advice: string): (out: string)
    ensures |out| >= |Bullet| && out[..|Bullet|] == Bullet
  {
    Bullet + Join(AdviceItems(advice), Bullet)
  }

  /** The positions of the lines that hold some non-whitespace character, in
      increasing order: a reference for which lines become items. */
  function NonBlankIndices(lines: seq<string>): (idx: seq<int>)
    ensures forall k :: 0 <= k < |idx| ==> 0 <= idx[k] < |lines|
  {
    if lines == [] then []
    else
      var rest := NonBlankIndices(lines[1..]);
      (if !IsBlank(lines[0]) then [0] else []) + Shifted(rest)
  }

  /** Every position one further on. */
  function Shifted(xs: seq<int>): (ys: seq<int>)
    ensures |ys| == |xs|
    ensures forall k :: 0 <= k < |xs| ==> ys[k] == xs[k] + 1
  {
    seq(|xs|, k requires 0 <= k < |xs| => xs[k] + 1)
  }

  /** The positions come in strictly increasing order. */
  lemma {:induction false} NonBlankIndicesIncreasing(lines: seq<string>)
    ensures forall k, l :: 0 <= k < l < |NonBlankIndices(lines)| ==>
      NonBlankIndices(lines)[k] < NonBlankIndices(lines)[l]
  {
    if lines != [] {
      var rest := NonBlankIndices(lines[1..]);
      var head: seq<int> := if !IsBlank(lines[0]) then [0] else [];
      NonBlankIndicesIncreasing(lines[1..]);
      assert NonBlankIndices(lines) == head + Shifted(rest);
      ShiftedStaysIncreasing(head, rest);
    }
  }

  /** Shifting increasing non-negative positions by one and putting
      position 0 (or nothing) in front keeps them increasing. */
  lemma ShiftedStaysIncreasing(head: seq<int>, rest: seq<int>)
    requires head == [] || head == [0]
    requires forall k :: 0 <= k < |rest| ==> 0 <= rest[k]
    requires forall k, l :: 0 <= k < l < |rest| ==> rest[k] < rest[l]
    ensures forall k, l :: 0 <= k < l < |head + Shifted(rest)| ==>
      (head + Shifted(rest))[k] < (head + Shifted(rest))[l]
  {
    var idx := head + Shifted(rest);
    forall k, l | 0 <= k < l < |idx| ensures idx[k] < idx[l] {
      if k >= |head| {
        assert idx[k] == rest[k - |head|] + 1 && idx[l] == rest[l - |head|] + 1;
      } else {
        assert idx[k] == 0 && idx[l] == rest[l - 1] + 1;
      }
    }
  }

  /** `NonBlankIndices` lists every non-blank line and no blank one. */
  lemma {:induction false} NonBlankIndicesComplete(lines: seq<string>)
    ensures forall i :: 0 <= i < |lines| ==> (i in NonBlankIndices(lines) <==> !IsBlank(lines[i]))
  {
    if lines != [] {
      var rest := NonBlankIndices(lines[1..]);
      var head: seq<int> := if !IsBlank(lines[0]) then [0] else [];
      NonBlankIndicesComplete(lines[1..]);
      assert NonBlankIndices(lines) == head + Shifted(rest);
      forall i | 0 <= i < |lines| ensures i in head + Shifted(rest) <==> !IsBlank(lines[i]) {
        if i > 0 {
          assert lines[1..][i - 1] == lines[i];
          if i - 1 in rest {
            var k :| 0 <= k < |rest| && rest[k] == i - 1;
            assert Shifted(rest)[k] == i;
          }
          if i in Shifted(rest) {
            var k :| 0 <= k < |rest| && Shifted(rest)[k] == i;
            assert rest[k] == i - 1;
          }
        }
      }
    }
  }

  /** The items are the stripped non-blank lines, in the order of the input:
      item `k` comes from line `NonBlankIndices(lines)[k]`. */
  lemma {:induction false} ConciseLinesFollowInput(lines: seq<string>)
    ensures |ConciseLines(lines)| == |NonBlankIndices(lines)|
    ensures forall k :: 0 <= k < |ConciseLines(lines)| ==>
      ConciseLines(lines)[k] == Strip(lines[NonBlankIndices(lines)[k]])
  {
    if lines != [] {
      var items := ConciseLines(lines[1..]);
      var rest := NonBlankIndices(lines[1..]);
      ConciseLinesFollowInput(lines[1..]);
      StripEmptyIffBlank(lines[0]);
      var head: seq<string> := if IsBlank(lines[0]) then [] else [Strip(lines[0])];
      var first: seq<int> := if IsBlank(lines[0]) then [] else [0];
      assert ConciseLines(lines) == head + items;
      assert NonBlankIndices(lines) == first + Shifted(rest);
      FollowInputStep(lines, items, rest, head, first);
    }
  }

  /** The inductive step of `ConciseLinesFollowInput`: putting the first
      line's item (if any) in front keeps items and positions in step. */
  lemma FollowInputStep(lines: seq<string>, items: seq<string>, rest: seq<int>, head: seq<string>, first: seq<int>)
    requires lines != [] && |items| == |rest|
    requires forall m :: 0 <= m < |rest| ==> 0 <= rest[m] < |lines| - 1
    requires forall m :: 0 <= m < |items| ==> items[m] == Strip(lines[1..][rest[m]])
    requires (head == [] && first == []) || (head == [Strip(lines[0])] && first == [0])
    ensures |head + items| == |first + Shifted(rest)|
    ensures forall k :: 0 <= k < |head + items| ==>
      (head + items)[k] == Strip(lines[(first + Shifted(rest))[k]])
  {
    forall k | 0 <= k < |head + items|
      ensures (head + items)[k] == Strip(lines[(first + Shifted(rest))[k]])
    {
      if k >= |head| {
        var m := k - |head|;
        assert (head + items)[k] == items[m] && (first + Shifted(rest))[k] == rest[m] + 1;
        assert lines[1..][rest[m]] == lines[rest[m] + 1];
      }
    }
  }

  /** A strictly increasing sequence has as many distinct values as elements. */
  lemma {:induction false} IncreasingDistinctCount(xs: seq<int>)
    requires forall k, l :: 0 <= k < l < |xs| ==> xs[k] < xs[l]
    ensures |set x | x in xs| == |xs|
  {
    if xs != [] {
      var tail := xs[1..];
      assert forall k, l :: 0 <= k < l < |tail| ==> tail[k] < tail[l] by {
        forall k, l | 0 <= k < l < |tail| ensures tail[k] < tail[l] {
          assert tail[k] == xs[k + 1] && tail[l] == xs[l + 1];
        }
      }
      IncreasingDistinctCount(tail);
      var rest := set x | x in tail;
      assert (set x | x in xs) == {xs[0]} + rest by {
        assert xs == [xs[0]] + tail;
      }
      assert xs[0] !in rest by {
        forall k | 0 <= k < |tail| ensures tail[k] != xs[0] {
          assert tail[k] == xs[k + 1];
        }
      }
    }
  }

  /** There are exactly as many items as lines holding some non-whitespace character. */
  lemma ConciseLinesCount(lines: seq<string>)
    ensures |ConciseLines(lines)| == |set i | 0 <= i < |lines| && !IsBlank(lines[i])|
  {
    var idx := NonBlankIndices(lines);
    ConciseLinesFollowInput(lines);
    NonBlankIndicesComplete(lines);
    NonBlankIndicesIncreasing(lines);
    IncreasingDistinctCount(idx);
    assert (set i | 0 <= i < |lines| && !IsBlank(lines[i])) == (set x | x in idx);
  }

  /** No item contains a character that no line contains. */
  lemma {:induction false} ConciseLinesKeepOnlyInputChars(lines: seq<string>, c: char)
    requires forall k :: 0 <= k < |lines| ==> c !in lines[k]
    ensures forall k :: 0 <= k < |ConciseLines(lines)| ==> c !in ConciseLines(lines)[k]
  {
    if lines != [] {
      StripKeepsOnlyInputChars(lines[0], c);
      ConciseLinesKeepOnlyInputChars(lines[1..], c);
    }
  }

  /** A reply has no items exactly when it is all whitespace. */
  lemma {:induction false} NoItemsIffBlank(advice: string)
    ensures AdviceItems(advice) == [] <==> IsBlank(advice)
  {
    var lines := Split(advice, '\n');
    ConciseLinesFollowInput(lines);
    NonBlankIndicesComplete(lines);
    JoinSplit(advice, '\n');
    JoinBlank(lines, '\n');
    if AdviceItems(advice) != [] {
      assert 0 in NonBlankIndices(lines) || NonBlankIndices(lines)[0] in NonBlankIndices(lines);
    }
  }

  /** Joining non-empty items never gives the empty string. */
  lemma JoinOfNonEmptyItems(items: seq<string>, sep: string)
    requires items != [] && items[0] != []
    ensures Join(items, sep) != []
  {
    if |items| >= 2 {
      assert Join(items, sep)[0] == items[0][0];
    }
  }

  /** The display text is exactly "\n- " (a lone empty bullet) when, and only
      when, the reply is all whitespace: the empty reply, "\n  \n", and so on. */
  lemma FormatAdviceBlank(advice: string)
    ensures FormatAdvice(advice) == Bullet <==> IsBlank(advice)
  {
    var items := AdviceItems(advice);
    NoItemsIffBlank(advice);
    if items != [] {
      JoinOfNonEmptyItems(items, Bullet);
      assert |FormatAdvice(advice)| > |Bullet|;
    }
  }

  /** The markdown lines of a list of items: "- " before each. */
  function Bulleted(items: seq<string>): (lines: seq<string>)
    ensures |lines| == |items|
    ensures forall k :: 0 <= k < |items| ==> lines[k] == "- " + items[k]
  {
    seq(|items|, k requires 0 <= k < |items| => "- " + items[k])
  }

  /** Joining items with "\n- " is joining their bullet lines with "\n". */
  lemma {:induction false} JoinWithBullets(items: seq<string>)
    requires items != []
    ensures "- " + Join(items, Bullet) == Join(Bulleted(items), "\n")
  {
    if |items| >= 2 {
      JoinWithBullets(items[1..]);
      assert Bulleted(items)[1..] == Bulleted(items[1..]);
      calc {
        "- " + Join(items, Bullet);
        "- " + (items[0] + Bullet + Join(items[1..], Bullet));
        ("- " + items[0]) + "\n" + ("- " + Join(items[1..], Bullet));
        Bulleted(items)[0] + "\n" + Join(Bulleted(items[1..]), "\n");
      }
    }
  }

  /** No line of the bulleted display holds a newline when no item does. */
  lemma BulletLinesHaveNoNewline(items: seq<string>)
    requires forall k :: 0 <= k < |items| ==> '\n' !in items[k]
    ensures forall k :: 0 <= k < |[""] + Bulleted(items)| ==> '\n' !in ([""] + Bulleted(items))[k]
  {
    var lines := [""] + Bulleted(items);
    forall k | 0 <= k < |lines| ensures '\n' !in lines[k] {
      if k > 0 {
        assert lines[k] == "- " + items[k - 1];
      }
    }
  }

  /** The display text of non-empty items is the newline-join of an empty
      line followed by their bullet lines. */
  lemma BulletTextAsLines(items: seq<string>)
    requires items != []
    ensures Bullet + Join(items, Bullet) == Join([""] + Bulleted(items), "\n")
  {
    var lines := [""] + Bulleted(items);
    JoinWithBullets(items);
    assert lines[1..] == Bulleted(items);
    assert Join(lines, "\n") == "" + "\n" + Join(lines[1..], "\n");
  }

  /** Splitting the display text on "\n" gives an empty first line and then
      one "- item" line per item, in order; a reply without items gives one
      dangling "- " line. */
  lemma FormatAdviceLines(advice: string)
    ensures var items := AdviceItems(advice);
      Split(FormatAdvice(advice), '\n') == [""] + Bulleted(if items == [] then [""] else items)
  {
    var items := AdviceItems(advice);
    var shown := if items == [] then [""] else items;
    assert forall k :: 0 <= k < |shown| ==> '\n' !in shown[k];
    assert Join(items, Bullet) == Join(shown, Bullet);
    BulletTextAsLines(shown);
    BulletLinesHaveNoNewline(shown);
    SplitJoin([""] + Bulleted(shown), '\n');
  }

  /** `ConciseLines` on a first line and the rest. */
  lemma ConciseLinesCons(line: string, rest: seq<string>)
    ensures ConciseLines([line] + rest) == (if Strip(line) == [] then [] else [Strip(line)]) + ConciseLines(rest)
  {
    var lines := [line] + rest;
    assert lines[0] == line && lines[1..] == rest;
  }

  /** The lines of the example below, stripped and filtered. */
  lemma ConciseExampleLines()
    ensures ConciseLines(["A", "", "B", ""]) == ["A", "B"]
  {
    var last: seq<string> := [""];
    var fromB := ["B"] + last;
    var fromBlank := [""] + fromB;
    var all := ["A"] + fromBlank;
    ExampleStrips();
    ConciseLinesCons("", []);
    assert last == [""] + [];
    ConciseLinesCons("B", last);
    ConciseLinesCons("", fromB);
    ConciseLinesCons("A", fromBlank);
    assert all == ["A", "", "B", ""];
  }

  /** The example's lines are already stripped. */
  lemma ExampleStrips()
    ensures Strip("A") == "A" && Strip("B") == "B" && Strip("") == ""
  {
    StripTrimmed("A");
    StripTrimmed("B");
  }

  /** A reply with a blank line and a trailing newline: the blank lines
      become no bullets. */
  lemma FormatAdviceExample()
    ensures FormatAdvice("A\n\nB\n") == "\n- A\n- B"
  {
    var reply := "A\n\nB\n";
    ExampleReplyLines();
    ConciseExampleLines();
    JoinExampleItems();
    assert AdviceItems(reply) == ["A", "B"];
    assert FormatAdvice(reply) == Bullet + Join(["A", "B"], Bullet);
  }

  /** The items of the example reply, joined. */
  lemma JoinExampleItems()
    ensures Bullet + Join(["A", "B"], Bullet) == "\n- A\n- B"
  {
    assert ["A", "B"][1..] == ["B"];
  }

  /** The lines of the example reply. */
  lemma ExampleReplyLines()
    ensures Split("A\n\nB\n", '\n') == ["A", "", "B", ""]
  {
    var lines := ["A", "", "B", ""];
    assert Join(lines, "\n") == "A\n\nB\n" by {
      assert Join(lines[3..], "\n") == "";
      assert Join(lines[2..], "\n") == "B\n";
      assert Join(lines[1..], "\n") == "\nB\n";
    }
    SplitJoin(lines, '\n');
  }

  // ---------------------------------------------------------------- outcomes and messages

  datatype Option<T> = None | Some(value: T)

  /** The first element of the reply's `choices` list as the page reads it:
      either `["message"]["content"]` is a string, or reading it (or splitting
      it) raises an exception with the given text. */
  datatype Choice = WithContent(content: string) | Unreadable(error: string)

  /** What the HTTP exchange produced: a decoded JSON object whose `choices`
      key may be absent, a failure raised by the HTTP library (connection,
      non-2xx status) with its text, or any other exception with its text. */
  datatype HttpOutcome =
    | Received(choices: Option<seq<Choice>>)
    | RequestFailed(error: string)
    | OtherFailure(error: string)

  /** The warning sign the page puts before every failure message (U+26A0 U+FE0F, then a space). */
  const Warning: string := "\U{26A0}\U{FE0F} "
  const InvalidAdvice: string := Warning + "Unable to fetch valid advice from the response."
  const RequestFailedPrefix: string := Warning + "API request failed: "
  const ErrorPrefix: string := Warning + "An error occurred: "
  /** What `str()` of the exception raised by `[0]` on an empty list reads. */
  const EmptyListIndexError: string := "list index out of range"

  /** The kinds of text the page can show under "Chatbot Advice". */
  datatype MessageKind = FormattedAdvice | InvalidResponse | RequestFailure | UnexpectedError | Unrecognised

  predicate StartsWith(s: string, prefix: string) {
    |s| >= |prefix| && s[..|prefix|] == prefix
  }

  /** Tells the kind of a message from its text alone. */
  function KindOf(msg: string): MessageKind
  {
    if StartsWith(msg, Bullet) then FormattedAdvice
    else if msg == InvalidAdvice then InvalidResponse
    else if StartsWith(msg, RequestFailedPrefix) then RequestFailure
    else if StartsWith(msg, ErrorPrefix) then UnexpectedError
    else Unrecognised
  }

  /** The error taxonomy: transport failures, a payload without `choices`,
      and everything else that goes wrong (an empty or malformed `choices`
      list included) are three different failures. */
  function ExpectedKind(outcome: HttpOutcome): MessageKind
  {
    match outcome
    case RequestFailed(_) => RequestFailure
    case OtherFailure(_) => UnexpectedError
    case Received(None) => InvalidResponse
    case Received(Some(choices)) =>
      if choices != [] && choices[0].WithContent? then FormattedAdvice else UnexpectedError
  }

  /** The string `get_openrouter_advice` returns for an outcome. Every message
      can be told apart by its text: reading the kind back from the message
      gives the kind of the outcome, never `Unrecognised`. */
  function AdviceMessage(outcome: HttpOutcome): (msg: string)
    ensures KindOf(msg) == ExpectedKind(outcome)
    ensures KindOf(msg) != Unrecognised
  {
    match outcome
    case RequestFailed(e) =>
      RequestFailureKind(e);
      RequestFailedPrefix + e
    case OtherFailure(e) =>
      UnexpectedErrorKind(e);
      ErrorPrefix + e
    case Received(None) =>
      InvalidResponseKind();
      InvalidAdvice
    case Received(Some(choices)) =>
      if choices == [] then
        UnexpectedErrorKind(EmptyListIndexError);
        ErrorPrefix + EmptyListIndexError
      else match choices[0]
        case WithContent(text) => FormatAdvice(text)
        case Unreadable(e) =>
          UnexpectedErrorKind(e);
          ErrorPrefix + e
  }

  /** A message that starts with `prefix` is not `other`, nor does it start
      with it, when the two differ at position `k`. */
  lemma DifferAt(msg: string, prefix: string, other: string, k: nat)
    requires StartsWith(msg, prefix)
    requires k < |prefix| && k < |other| && prefix[k] != other[k]
    ensures msg != other && !StartsWith(msg, other)
  {
    assert msg[k] == msg[..|prefix|][k] == prefix[k];
  }

  /** Where the four kinds of message first differ: the formatted advice
      starts with a newline and every warning with the warning sign; after
      the sign, "Unable", "API" and "An" differ in their first or second letter. */
  lemma MessageHeads()
    ensures |Warning| == 3
    ensures Bullet[0] == '\n'
    ensures InvalidAdvice[0] == RequestFailedPrefix[0] == ErrorPrefix[0] == '\U{26A0}'
    ensures InvalidAdvice[3] == 'U'
    ensures RequestFailedPrefix[3] == 'A'
    ensures ErrorPrefix[3] == 'A'
    ensures RequestFailedPrefix[4] == 'P' && ErrorPrefix[4] == 'n'
  {
    assert InvalidAdvice == Warning + "Unable to fetch valid advice from the response.";
    assert "Unable to fetch valid advice from the response." == "Unable" + " to fetch valid advice from the response.";
  }

  /** The invalid-advice warning is read back as an invalid response. */
  lemma InvalidResponseKind()
    ensures KindOf(InvalidAdvice) == InvalidResponse
  {
    MessageHeads();
    assert StartsWith(InvalidAdvice, InvalidAdvice);
    DifferAt(InvalidAdvice, InvalidAdvice, Bullet, 0);
  }

  /** A request-failure warning is read back as a request failure, whatever text follows. */
  lemma RequestFailureKind(e: string)
    ensures KindOf(RequestFailedPrefix + e) == RequestFailure
  {
    var msg := RequestFailedPrefix + e;
    MessageHeads();
    assert msg[..|RequestFailedPrefix|] == RequestFailedPrefix;
    DifferAt(msg, RequestFailedPrefix, Bullet, 0);
    DifferAt(msg, RequestFailedPrefix, InvalidAdvice, 3);
  }

  /** A generic error warning is read back as an unexpected error, whatever text follows. */
  lemma UnexpectedErrorKind(e: string)
    ensures KindOf(ErrorPrefix + e) == UnexpectedError
  {
    var msg := ErrorPrefix + e;
    MessageHeads();
    assert msg[..|ErrorPrefix|] == ErrorPrefix;
    DifferAt(msg, ErrorPrefix, Bullet, 0);
    DifferAt(msg, ErrorPrefix, InvalidAdvice, 3);
    DifferAt(msg, ErrorPrefix, RequestFailedPrefix, 4);
  }

  /** A payload without a `choices` key yields exactly the invalid-advice warning. */
  lemma NoChoicesMessage()
    ensures AdviceMessage(Received(None)) == Warning + "Unable to fetch valid advice from the response."
  {
  }

  /** A transport failure yields "API request failed: " followed by the failure's own text. */
  lemma RequestFailedMessage(e: string)
    ensures StartsWith(AdviceMessage(RequestFailed(e)), RequestFailedPrefix)
    ensures AdviceMessage(RequestFailed(e))[|RequestFailedPrefix|..] == e
  {
  }

  /** An empty `choices` list is not the missing-advice case: `[0]` raises,
      and the generic handler reports it. */
  lemma EmptyChoicesMessage()
    ensures AdviceMessage(Received(Some([]))) == ErrorPrefix + "list index out of range"
    ensures KindOf(AdviceMessage(Received(Some([])))) == UnexpectedError
  {
  }
}
