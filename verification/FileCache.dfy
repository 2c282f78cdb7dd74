/**
 The text-file cache (src/cache/file_cache.cpp): one line per message, topic and payload
 separated by a tab. The file is a string; appends may be cut short by the system, the
 rewrite goes through a temporary file and an atomic rename.
 */
module FileCaching {
  import opened Delivery
  import opened Ordering

  predicate Clean(text: string) {
    '\t' !in text && '\n' !in text && '\r' !in text
  }

  predicate CleanMessage(m: Message) {
    Clean(m.topic) && Clean(m.payload)
  }

  predicate AllClean(q: seq<Message>) {
    forall i :: 0 <= i < |q| ==> CleanMessage(q[i])
  }

  function LineOf(m: Message): string { m.topic + "\t" + m.payload + "\n" }

  /** The file that holds a queue. */
  function Format(q: seq<Message>): string {
    if |q| == 0 then "" else Format(q[..|q| - 1]) + LineOf(q[|q| - 1])
  }

  /** Index of the first c, or the length when there is none. */
  function Find(s: string, c: char): (i: nat)
    ensures i <= |s| && c !in s[..i] && (i < |s| ==> s[i] == c)
  {
    if |s| == 0 || s[0] == c then 0
    else
      var i := 1 + Find(s[1..], c);
      assert s[..i] == [s[0]] + s[1..][..i - 1];
      i
  }

  lemma {:induction false} FoundBy(s: string, c: char, k: nat)
    requires k < |s| && s[k] == c
    ensures Find(s, c) <= k
    decreases k
  {
    if s[0] != c { FoundBy(s[1..], c, k - 1); }
  }

  lemma {:induction false} FindIs(s: string, c: char, i: nat)
    requires i <= |s| && c !in s[..i] && (i < |s| ==> s[i] == c)
    ensures Find(s, c) == i
    decreases i
  {
    if i > 0 {
      assert s[0] == s[..i][0] && s[1..][..i - 1] == s[..i][1..];
      FindIs(s[1..], c, i - 1);
    }
  }

  /** A line as a message; a line without a tab is skipped. */
  function ParseLine(line: string): seq<Message> {
    var tab := Find(line, '\t');
    if tab == |line| then [] else [Message(line[..tab], line[tab + 1..])]
  }

  /** What load_all makes of a file: every line, the last one terminated or not. */
  function Load(text: string): seq<Message> {
    if |text| == 0 then []
    else
      var end := Find(text, '\n');
      if end == |text| then ParseLine(text) else ParseLine(text[..end]) + Load(text[end + 1..])
  }

  /** Which messages the file takes, character by character. */
  lemma CleanExact(m: Message)
    ensures CleanMessage(m) <==> forall c :: c in m.topic + m.payload ==> c != '\t' && c != '\n' && c != '\r'
  {
    var all := m.topic + m.payload;
    assert '\t' !in all && '\n' !in all && '\r' !in all <==> CleanMessage(m);
  }

  lemma ParseCleanLine(m: Message)
    requires CleanMessage(m)
    ensures ParseLine(m.topic + "\t" + m.payload) == [m]
  {
    var line := m.topic + "\t" + m.payload;
    assert line[..|m.topic|] == m.topic;
    FindIs(line, '\t', |m.topic|);
    assert line[|m.topic| + 1..] == m.payload;
  }

  /** The position after which an append starts a line of its own. */
  predicate AtLineStart(text: string) {
    |text| == 0 || text[|text| - 1] == '\n'
  }

  /** The first line of a text that ends at a line boundary does not depend on what follows. */
  lemma {:induction false} FirstLine(text: string, more: string)
    requires AtLineStart(text) && |text| > 0
    ensures var end := Find(text, '\n');
            && end < |text| && Find(text + more, '\n') == end
            && (text + more)[..end] == text[..end]
  {
    hide Find;
    var end := Find(text, '\n');
    FoundBy(text, '\n', |text| - 1);
    assert (text + more)[..end] == text[..end];
    FindIs(text + more, '\n', end);
  }

  lemma RestOfLines(text: string, more: string, end: nat)
    requires AtLineStart(text) && end < |text|
    ensures After(text + more, end) == After(text, end) + more && AtLineStart(After(text, end))
  {}

  lemma {:induction false} LoadAfterLines(text: string, more: string)
    requires AtLineStart(text)
    ensures Load(text + more) == Load(text) + Load(more)
    decreases |text|
  {
    hide *;
    if |text| == 0 {
      assert text == "" && text + more == more;
      LoadNothing();
    } else {
      FirstLine(text, more);
      LoadStep(text);
      LoadStep(text + more);
      var end := Find(text, '\n');
      RestOfLines(text, more, end);
      var first, rest := ParseLine(text[..end]), After(text, end);
      assert |rest| < |text| by { RestShorter(text, end); }
      LoadAfterLines(rest, more);
      assert first + (Load(rest) + Load(more)) == first + Load(rest) + Load(more);
    }
  }

  lemma RestShorter(text: string, end: nat)
    requires end < |text|
    ensures |After(text, end)| < |text|
  {}

  lemma {:induction false} TerminatedLine(body: string)
    requires '\n' !in body
    ensures Load(body + "\n") == ParseLine(body)
  {
    hide Find, ParseLine;
    assert (body + "\n")[..|body|] == body && (body + "\n")[|body| + 1..] == "";
    FindIs(body + "\n", '\n', |body|);
  }

  lemma {:induction false} UnterminatedLine(body: string)
    requires '\n' !in body
    ensures Load(body) == ParseLine(body)
  {
    hide Find;
    assert body[..|body|] == body;
    FindIs(body, '\n', |body|);
    FindIs("", '\t', 0);
  }

  lemma LoadLine(m: Message)
    requires CleanMessage(m)
    ensures Load(LineOf(m)) == [m]
  {
    hide Load, ParseLine;
    var body := m.topic + "\t" + m.payload;
    assert '\n' !in body;
    TerminatedLine(body);
    ParseCleanLine(m);
  }

  /** The text format round-trips every queue of separator-free messages. */
  lemma {:induction false} LoadFormat(q: seq<Message>)
    requires AllClean(q)
    ensures Load(Format(q)) == q && AtLineStart(Format(q))
  {
    hide *;
    if |q| == 0 {
      FormatNothing(q);
    } else {
      var init, m := q[..|q| - 1], q[|q| - 1];
      FormatLast(q);
      LoadFormat(init);
      LoadAfterLines(Format(init), LineOf(m));
      LoadLine(m);
    }
  }

  lemma {:induction false} FormatNothing(q: seq<Message>)
    requires |q| == 0
    ensures Format(q) == "" && Load("") == [] && AtLineStart("")
  {}

  lemma {:induction false} FormatLast(q: seq<Message>)
    requires AllClean(q) && |q| > 0
    ensures var init, m := q[..|q| - 1], q[|q| - 1];
            && AllClean(init) && CleanMessage(m)
            && Format(q) == Format(init) + LineOf(m) && AtLineStart(Format(q))
  {
    hide Load, CleanMessage;
  }

  // ----- appends -----

  /** The text up to and including the last newline, and what follows it. */
  function LastLineStart(text: string): (i: nat)
    ensures i <= |text| && AtLineStart(text[..i]) && '\n' !in text[i..]
  {
    if AtLineStart(text) then |text|
    else
      var i := LastLineStart(text[..|text| - 1]);
      assert text[i..] == text[..|text| - 1][i..] + [text[|text| - 1]];
      assert text[..i] == text[..|text| - 1][..i];
      i
  }

  /** The message that results when a fragment is continued by a later line. */
  function Glued(tail: string, m: Message): Message {
    var tab := Find(tail, '\t');
    if tab == |tail| then Message(tail + m.topic, m.payload)
    else Message(tail[..tab], tail[tab + 1..] + m.topic + "\t" + m.payload)
  }

  lemma {:induction false} GluedIs(tail: string, m: Message)
    requires CleanMessage(m) && |tail| > 0
    ensures ParseLine(tail + m.topic + "\t" + m.payload) == [Glued(tail, m)] && Glued(tail, m) != m
  {
    hide Find;
    var tab := Find(tail, '\t');
    var body := tail + m.topic + "\t" + m.payload;
    if tab < |tail| {
      assert body[..tab] == tail[..tab];
      FindIs(body, '\t', tab);
      assert body[tab + 1..] == tail[tab + 1..] + m.topic + "\t" + m.payload;
      assert |Glued(tail, m).payload| > |m.payload|;
    } else {
      var topic := tail + m.topic;
      assert tail[..|tail|] == tail;
      assert body[..|topic|] == topic && body[|topic| + 1..] == m.payload;
      FindIs(body, '\t', |topic|);
      assert |topic| != |m.topic|;
    }
  }

  /** The complete lines of a file. */
  function Body(text: string): string { text[..LastLineStart(text)] }

  /** What follows the last complete line. */
  function Tail(text: string): string { text[LastLineStart(text)..] }

  lemma TailEmpty(text: string)
    ensures Tail(text) == "" <==> AtLineStart(text)
  {
    assert text[..|text|] == text;
  }

  /** Whatever is written next continues what follows the last complete line. */
  lemma {:induction false} LoadTail(text: string, more: string)
    ensures Load(text) == Load(Body(text)) + ParseLine(Tail(text)) && '\n' !in Tail(text)
    ensures Load(text + more) == Load(Body(text)) + Load(Tail(text) + more)
  {
    hide Load, ParseLine;
    var i := LastLineStart(text);
    assert text == text[..i] + text[i..] && text + more == text[..i] + (text[i..] + more);
    LoadAfterLines(text[..i], text[i..]);
    LoadAfterLines(text[..i], text[i..] + more);
    UnterminatedLine(text[i..]);
  }

  lemma {:induction false} NoTabNoMessage(line: string)
    ensures ParseLine(line) == [] <==> '\t' !in line
    ensures |ParseLine(line)| <= 1
  {
    var tab := Find(line, '\t');
    assert line[..|line|] == line;
  }

  /** A line that reads as a message reads as a longer one when it is continued. */
  lemma {:induction false} LongerLine(tail: string, more: string)
    requires '\t' in tail && |more| > 0
    ensures |ParseLine(tail)| == |ParseLine(tail + more)| == 1
    ensures |ParseLine(tail)[0].payload| < |ParseLine(tail + more)[0].payload|
  {
    hide Find;
    var tab := Find(tail, '\t');
    assert tail[..|tail|] == tail;
    assert (tail + more)[..tab] == tail[..tab];
    FindIs(tail + more, '\t', tab);
  }

  /** A tail continued by a whole line, which then reads as one message: never the one on the
      line, nor the one the tail may have read as. */
  lemma {:induction false} LineOnTail(text: string, m: Message)
    requires CleanMessage(m) && !AtLineStart(text)
    ensures var tail, g := Tail(text), Glued(Tail(text), m);
            && Load(text + LineOf(m)) == Load(Body(text)) + [g] && g != m
            && (ParseLine(tail) == [] || (|ParseLine(tail)| == 1 && ParseLine(tail)[0] != g))
  {
    hide Load, Find, ParseLine, Glued, LastLineStart;
    var tail := Tail(text);
    TailEmpty(text);
    LoadTail(text, LineOf(m));
    var more := m.topic + "\t" + m.payload;
    assert tail + m.topic + "\t" + m.payload == tail + more;
    assert tail + LineOf(m) == (tail + more) + "\n" && '\n' !in tail + more;
    TerminatedLine(tail + more);
    GluedIs(tail, m);
    NoTabNoMessage(tail);
    if '\t' in tail { LongerLine(tail, more); }
  }

  /** A successful append adds exactly its message to what the file reads as if and only if
      the file ended at a line boundary: after a torn append the next message is lost. */
  lemma {:induction false} AppendExact(text: string, m: Message)
    requires CleanMessage(m)
    ensures Load(text + LineOf(m)) == Load(text) + [m] <==> AtLineStart(text)
  {
    hide Load, ParseLine, Glued, LastLineStart;
    if AtLineStart(text) {
      LoadAfterLines(text, LineOf(m));
      LoadLine(m);
    } else {
      LineOnTail(text, m);
      LoadTail(text, "");
      assert (Load(text) + [m])[|Load(text)|] == m;
    }
  }

  /** What the file gains by part of a line: the message it reads as, together with what follows
      the last complete line. */
  function Left(text: string, m: Message, k: nat): seq<Message>
    requires k <= |LineOf(m)|
  {
    if k == 0 then [] else Load(Tail(text) + LineOf(m)[..k])
  }

  /** Part of a line, or all of it, on a tail: one line is read, with or without its end. */
  lemma {:induction false} PartOnTail(tail: string, m: Message, k: nat) returns (more: string)
    requires CleanMessage(m) && 0 < k <= |LineOf(m)| && '\n' !in tail
    ensures Load(tail + LineOf(m)[..k]) == ParseLine(tail + more) && |more| > 0
  {
    hide Load, ParseLine;
    var line := m.topic + "\t" + m.payload;
    assert LineOf(m) == line + "\n";
    if k == |LineOf(m)| {
      more := line;
      assert tail + LineOf(m)[..k] == (tail + more) + "\n";
      TerminatedLine(tail + more);
    } else {
      more := LineOf(m)[..k];
      assert more == line[..k];
      UnterminatedLine(tail + more);
    }
  }

  /** A failed append that got some characters out changes the last message, and no other, where
      that message is what follows the last complete line. */
  lemma {:induction false} SpoilsLast(text: string, m: Message, k: nat)
    requires CleanMessage(m) && 0 < k <= |LineOf(m)| && '\t' in Tail(text)
    ensures var j, q, r := ParseLine(Tail(text)), Load(text), Load(text + LineOf(m)[..k]);
            |j| == |Left(text, m, k)| == 1 && j != Left(text, m, k)
            && q == Load(Body(text)) + j && r == Load(Body(text)) + Left(text, m, k)
  {
    hide Load, ParseLine, LastLineStart;
    LoadTail(text, LineOf(m)[..k]);
    var more := PartOnTail(Tail(text), m, k);
    LongerLine(Tail(text), more);
  }

  /** A failed append leaves the queue as it was, with what it wrote read as a further message or
      as none, if and only if nothing got out or what follows the last complete line does not read
      as a message already. */
  lemma {:induction false} PartialAppendExact(text: string, m: Message, k: nat)
    requires k <= |LineOf(m)| && (CleanMessage(m) || k == 0)
    ensures Load(text + LineOf(m)[..k]) == Load(text) + Left(text, m, k) <==> k == 0 || '\t' !in Tail(text)
  {
    hide Load, ParseLine, LastLineStart;
    if k == 0 {
      assert text + LineOf(m)[..0] == text;
    } else if '\t' in Tail(text) {
      SpoilsLast(text, m, k);
    } else {
      LoadTail(text, LineOf(m)[..k]);
      NoTabNoMessage(Tail(text));
    }
  }

  // ----- what is lost -----

  /** Messages that an append costs although it succeeds: its own, and what the tail read as. */
  function LostByAppend(text: string, m: Message): seq<Message> {
    if AtLineStart(text) then [] else ParseLine(Tail(text)) + [m]
  }

  /** Messages that a failed append costs: what the tail read as. */
  function LostByFailure(text: string, k: nat): seq<Message> {
    if k == 0 then [] else ParseLine(Tail(text))
  }

  lemma {:induction false} LossesOf(base: seq<Message>, gone: seq<Message>, now: seq<Message>)
    requires forall x :: x in gone ==> x !in now
    ensures multiset(base + gone) - multiset(base + now) == multiset(gone)
  {
    assert multiset(base + gone) == multiset(base) + multiset(gone);
    assert multiset(base + now) == multiset(base) + multiset(now);
    forall x ensures (multiset(base + gone) - multiset(base + now))[x] == multiset(gone)[x] {
      assert x in gone <==> x in multiset(gone);
      assert x in now <==> x in multiset(now);
    }
  }

  lemma {:induction false} AppendLoses(text: string, m: Message)
    requires CleanMessage(m)
    ensures multiset(Load(text) + [m]) - multiset(Load(text + LineOf(m))) == multiset(LostByAppend(text, m))
  {
    hide Load, ParseLine, Glued, LastLineStart;
    if AtLineStart(text) {
      AppendExact(text, m);
    } else {
      LineOnTail(text, m);
      LoadTail(text, "");
      var lost := ParseLine(Tail(text)) + [m];
      assert Load(text) + [m] == Load(Body(text)) + lost;
      LossesOf(Load(Body(text)), lost, [Glued(Tail(text), m)]);
    }
  }

  lemma {:induction false} FailureLoses(text: string, m: Message, k: nat)
    requires k <= |LineOf(m)| && (CleanMessage(m) || k == 0)
    ensures multiset(Load(text)) - multiset(Load(text + LineOf(m)[..k])) == multiset(LostByFailure(text, k))
  {
    hide Load, ParseLine, LastLineStart;
    if k > 0 && '\t' in Tail(text) {
      SpoilsLast(text, m, k);
      LossesOf(Load(Body(text)), ParseLine(Tail(text)), Left(text, m, k));
    } else {
      PartialAppendExact(text, m, k);
      NoTabNoMessage(Tail(text));
      assert multiset(Load(text) + Left(text, m, k)) == multiset(Load(text)) + multiset(Left(text, m, k));
    }
  }

  lemma LoadNothing()
    ensures Load("") == []
  {}

  function After(text: string, end: nat): string
    requires end <= |text|
  {
    if end == |text| then "" else text[end + 1..]
  }

  /** One line read: the message on it, if any, and then the rest of the file. */
  lemma {:induction false} LoadStep(text: string)
    requires |text| > 0
    ensures var end := Find(text, '\n');
            Load(text) == ParseLine(text[..end]) + Load(After(text, end))
  {
    hide Find, ParseLine;
    assert text[..|text|] == text;
  }

  // ----- what a read shows -----

  /** How a read of the file goes: it may not open, or fail in the middle. */
  datatype Read = Read(opens: bool, upTo: nat)

  /** The part of the file whose lines are complete before the read fails. */
  function Readable(text: string, r: Read): string {
    if !r.opens then "" else if r.upTo < |text| then text[..LastLineStart(text[..r.upTo])] else text
  }

  /** What load_all returns. */
  function View(text: string, r: Read): seq<Message> { Load(Readable(text, r)) }

  /** What stays after a removal, as far as a read of the file shows. */
  function Kept(text: string, count: nat, r: Read): seq<Message> { Drop(View(text, r), count) }

  /** A read shows the first messages of the file, and all of them when nothing fails. */
  lemma {:induction false} ViewIsPrefix(text: string, r: Read)
    ensures View(text, r) <= Load(text)
    ensures r.opens && r.upTo >= |text| ==> View(text, r) == Load(text)
  {
    hide Load;
    LoadNothing();
    if r.opens && r.upTo < |text| {
      var i := LastLineStart(text[..r.upTo]);
      assert text[..r.upTo][..i] == text[..i] && text == text[..i] + text[i..];
      LoadAfterLines(text[..i], text[i..]);
    }
  }

  /** A read that fails after some bytes still shows every message on the lines before. */
  lemma {:induction false} ViewShows(text: string, upTo: nat, i: nat)
    requires i <= upTo && i <= |text| && AtLineStart(text[..i])
    ensures Load(text[..i]) <= View(text, Read(true, upTo))
  {
    hide Load;
    if upTo < |text| {
      var j := LastLineStart(text[..upTo]);
      assert text[..upTo][..j] == text[..j];
      assert i > 0 ==> text[..upTo][i - 1] == text[..i][i - 1] == '\n';
      assert i <= j;
      assert text[..j] == text[..i] + text[i..j];
      LoadAfterLines(text[..i], text[i..j]);
    } else {
      assert text == text[..i] + text[i..];
      LoadAfterLines(text[..i], text[i..]);
    }
  }

  /** On a file that holds a queue, a read that stops early misses a message. */
  lemma {:induction false} ViewMisses(q: seq<Message>, r: Read)
    requires AllClean(q)
    ensures View(Format(q), r) <= q
    ensures View(Format(q), r) == q <==> (r.opens && r.upTo >= |Format(q)|) || |q| == 0
  {
    hide *;
    LoadFormat(q);
    ViewIsPrefix(Format(q), r);
    if |q| > 0 {
      var init, m := q[..|q| - 1], q[|q| - 1];
      FormatLast(q);
      LoadFormat(init);
      if !(r.opens && r.upTo >= |Format(q)|) { LastLineMissed(Format(init), m, r); }
    }
  }

  lemma {:induction false} LastLineMissed(text: string, m: Message, r: Read)
    requires AtLineStart(text) && CleanMessage(m) && !(r.opens && r.upTo >= |text + LineOf(m)|)
    ensures |View(text + LineOf(m), r)| <= |Load(text)|
  {
    hide Load, Find;
    LoadNothing();
    if r.opens {
      var all := text + LineOf(m);
      var i := LastLineStart(all[..r.upTo]);
      assert all[..r.upTo][..i] == all[..i];
      assert forall j :: |text| <= j < |all| - 1 ==> all[j] != '\n';
      assert all[..i] == text[..i] && text == text[..i] + text[i..];
      LoadAfterLines(text[..i], text[i..]);
    }
  }

  class FileCache {
    var text: string

    /** The file holds exactly this queue. */
    ghost predicate Holds(q: seq<Message>)
      reads this
    {
      AllClean(q) && text == Format(q)
    }

    /** Opens on whatever an earlier process left; an absent file is an empty one. */
    constructor (stored: string)
      ensures text == stored
    {
      text := stored;
    }

    /** append. The system may refuse to open the file, or write only part of the line; the
        call succeeds when the whole line has been written and the stream is still good. */
    method Append(m: Message, opens: bool, written: nat, good: bool) returns (ok: bool)
      requires good ==> written >= |LineOf(m)|
      modifies this
      ensures ok <==> CleanMessage(m) && opens && good
      ensures CleanMessage(m) <==> forall c :: c in m.topic + m.payload ==> c != '\t' && c != '\n' && c != '\r'
      ensures var line := m.topic + "\t" + m.payload + "\n";
              && (CleanMessage(m) && opens ==>
                    text == old(text) + line[..if written < |line| then written else |line|])
              && (!CleanMessage(m) || !opens ==> text == old(text))
              && (ok ==> text == old(text) + line)
      ensures text == old(text) + LineOf(m)[..Out(m, opens, written)] && (ok ==> text == old(text) + LineOf(m))
      ensures forall q :: old(Holds(q)) && ok ==> Holds(q + [m])
      ensures forall q :: old(Holds(q)) && !ok ==> (Holds(q) <==> Out(m, opens, written) == 0)
    {
      CleanExact(m);
      hide CleanMessage;
      var line := LineOf(m);
      if !CleanMessage(m) || !opens {
        return false;
      }
      var k := if written < |line| then written else |line|;
      text := text + line[..k];
      assert k > 0 ==> text != old(text);
      forall q | old(Holds(q)) && k == |line| ensures Holds(q + [m]) {
        assert (q + [m])[..|q|] == q;
      }
      return good;
    }

    /** load_all, line by line. A file that cannot be opened looks empty; a failure in the middle
        ends the list. */
    method LoadAll(r: Read) returns (messages: seq<Message>)
      ensures messages == View(text, r) && messages <= Load(text)
      ensures r.opens && r.upTo >= |text| ==> messages == Load(text)
      ensures forall q :: Holds(q) ==> messages <= q && (messages == q <==> (r.opens && r.upTo >= |text|) || |q| == 0)
    {
      hide Find, Load, View, Readable, Format, LastLineStart;
      messages := [];
      ViewIsPrefix(text, r);
      forall q | Holds(q)
        ensures View(text, r) <= q && (View(text, r) == q <==> (r.opens && r.upTo >= |text|) || |q| == 0)
      {
        ViewMisses(q, r);
      }
      var rest := Readable(text, r);
      ViewIs(text, r);
      while |rest| > 0
        invariant View(text, r) == messages + Load(rest)
        decreases |rest|
      {
        LoadStep(rest);
        var end := Find(rest, '\n');
        var line := rest[..end];
        rest := After(rest, end);
        assert View(text, r) == messages + ParseLine(line) + Load(rest);
        assert messages + [] == messages;
        var tab := Find(line, '\t');
        if tab == |line| {
          continue;
        }
        messages := messages + [Message(line[..tab], line[tab + 1..])];
      }
      LoadNothing();
    }

    /** replace_all: refuses separators, otherwise all or nothing. */
    method ReplaceAll(messages: seq<Message>, succeeds: bool) returns (ok: bool)
      modifies this
      ensures ok <==> AllClean(messages) && succeeds
      ensures ok ==> Holds(messages)
      ensures !ok ==> text == old(text)
    {
      for i := 0 to |messages|
        invariant AllClean(messages[..i])
      {
        if !CleanMessage(messages[i]) {
          return false;
        }
      }
      assert messages[..|messages|] == messages;
      if !succeeds {
        return false;
      }
      var output := "";
      for i := 0 to |messages|
        invariant output == Format(messages[..i])
      {
        assert messages[..i + 1][..i] == messages[..i];
        output := output + LineOf(messages[i]);
      }
      text := output;
      return true;
    }

    /** remove_first reads the file again and rewrites it with what that read leaves over. */
    method RemoveFirst(count: nat, r: Read, succeeds: bool) returns (ok: bool)
      modifies this
      ensures count == 0 ==> ok && text == old(text)
      ensures count > 0 ==> (ok <==> succeeds && AllClean(Kept(old(text), count, r)))
      ensures count > 0 && ok ==> Holds(Kept(old(text), count, r))
      ensures forall q :: count > 0 && ok && old(Holds(q)) ==>
                            (Holds(Drop(q, count)) <==> (r.opens && r.upTo >= |old(text)|) || count >= |q|)
      ensures !ok ==> text == old(text)
    {
      hide Load, Format, View;
      if count == 0 {
        return true;
      }
      ghost var before, kept := text, Kept(text, count, r);
      var messages := LoadAll(r);
      if count >= |messages| {
        ok := ReplaceAll([], succeeds);
      } else {
        ok := ReplaceAll(messages[count..], succeeds);
      }
      if ok {
        forall q | AllClean(q) && before == Format(q)
          ensures Holds(Drop(q, count)) <==> (r.opens && r.upTo >= |before|) || count >= |q|
        {
          RemoveExact(q, count, r);
          FormatInjective(kept, Drop(q, count));
        }
      }
    }
  }

  /** How many characters of the line an append gets into the file. */
  function Out(m: Message, opens: bool, written: nat): (k: nat)
    ensures k <= |LineOf(m)|
  {
    if !CleanMessage(m) || !opens then 0 else if written < |LineOf(m)| then written else |LineOf(m)|
  }

  lemma ViewIs(text: string, r: Read)
    ensures View(text, r) == Load(Readable(text, r))
  {}

  /** A file holds one queue. */
  lemma {:induction false} FormatInjective(p: seq<Message>, q: seq<Message>)
    requires AllClean(p) && AllClean(q)
    ensures Format(p) == Format(q) <==> p == q
  {
    hide Format, Load;
    LoadFormat(p);
    LoadFormat(q);
  }

  /** On a file that holds a queue, a removal can be written back, and it drops the first
      messages and no others if and only if the read went through or nothing was to stay: a
      failed read otherwise loses the messages behind. */
  lemma {:induction false} RemoveExact(q: seq<Message>, count: nat, r: Read)
    requires AllClean(q)
    ensures var kept := Kept(Format(q), count, r);
            && AllClean(kept) && AllClean(Drop(q, count))
            && (kept == Drop(q, count) <==> (r.opens && r.upTo >= |Format(q)|) || count >= |q|)
  {
    hide View, Format, CleanMessage;
    ViewMisses(q, r);
    var seen := View(Format(q), r);
    assert |Drop(seen, count)| == |Drop(q, count)| <==> |seen| == |q| || count >= |q|;
    assert |seen| == |q| ==> seen == q;
    forall i | 0 <= i < |Drop(q, count)| ensures CleanMessage(Drop(q, count)[i]) { assert CleanMessage(q[count + i]); }
    forall i | 0 <= i < |Drop(seen, count)| ensures CleanMessage(Drop(seen, count)[i]) {
      assert Drop(seen, count)[i] == q[count + i] && CleanMessage(q[count + i]);
    }
  }

  /** What a rewrite from a read that showed some of the queue comes to: the messages not shown
      and not meant to go are lost. */
  lemma {:induction false} RewriteExact(text: string, count: nat, r: Read)
    requires AllClean(Kept(text, count, r))
    ensures var q, seen, now := Load(text), |View(text, r)|, Load(Format(Kept(text, count, r)));
            && (now == Drop(q, count) <==> seen == |q| || count >= |q|)
            && multiset(Drop(q, count)) - multiset(now) == multiset(LostByRewrite(q, seen, count))
  {
    hide Load, Format, View;
    LoadFormat(Kept(text, count, r));
    ViewIsPrefix(text, r);
    var q, seen := Load(text), View(text, r);
    assert |Drop(seen, count)| == |Drop(q, count)| <==> |seen| == |q| || count >= |q|;
    assert |seen| == |q| ==> seen == q;
    var kept, lost := Drop(seen, count), LostByRewrite(q, |seen|, count);
    assert Drop(q, count) == kept + lost;
    LossesOf(kept, lost, []);
    assert kept + [] == kept;
  }

  /** The messages of a queue behind those shown and those to be removed. */
  function LostByRewrite(q: seq<Message>, seen: nat, count: nat): seq<Message> {
    Drop(q, if seen < count then count else seen)
  }

  /** The protocol's wiping removal is this cache's removal with a read that does not open. In a
      run whose flushes removed what they had acknowledged, it does what a removal should if and
      only if the delivery guarantee survives it. */
  lemma {:induction false} FailedRereadIsWipe(initial: seq<Message>, es: seq<Effect>, upTo: nat)
    requires Faithful(es) && Execute(Start(initial), es).Next? && Execute(Start(initial), es).s.phase.Removing?
    requires AllClean(Execute(Start(initial), es).s.cache)
    ensures var s := Execute(Start(initial), es).s;
            var kept := Kept(Format(s.cache), s.phase.sent, Read(false, upTo));
            && Step(s, RemoveWipes).Next? && kept == Step(s, RemoveWipes).s.cache
            && (Tidy(initial, es) ==> (kept == Drop(s.cache, s.phase.sent) <==> Inv(initial, Step(s, RemoveWipes).s)))
  {
    hide Execute, Inv, Tidy, Faithful, Format;
    var s := Execute(Start(initial), es).s;
    RemoveExact(s.cache, s.phase.sent, Read(false, upTo));
    LoadNothing();
    WipeExact(initial, es);
    SentFits(initial, es);
  }

  lemma {:induction false} SentFits(initial: seq<Message>, es: seq<Effect>)
    requires Faithful(es) && Execute(Start(initial), es).Next? && Execute(Start(initial), es).s.phase.Removing?
    ensures Execute(Start(initial), es).s.phase.sent <= |Execute(Start(initial), es).s.cache|
  {
    hide Execute;
    ExecuteInv(initial, es);
  }
}
