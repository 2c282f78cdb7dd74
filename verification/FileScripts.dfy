/**
 Whole histories of the text-file cache (src/cache/file_cache.cpp), including appends that get
 only part of their line into the file. What such a fragment does to later messages is worked
 out, and the histories after which the file still reads as the queue are characterised by
 what a caller sees: the results of the calls and how far each append got.
 */
module FileScripts {
  import opened Delivery
  import opened FileCaching

  // ----- fragments -----

  /** The beginning of a line, as an append cut short leaves it. */
  function Fragment(m: Message, k: nat): string
    requires k <= |LineOf(m)|
  {
    LineOf(m)[..k]
  }

  lemma FragmentChars(m: Message, k: nat)
    requires CleanMessage(m) && k < |LineOf(m)|
    ensures '\n' !in Fragment(m, k) && ('\t' in Fragment(m, k) <==> k > |m.topic|)
  {
    var f := Fragment(m, k);
    assert forall j :: 0 <= j < k ==> f[j] == LineOf(m)[j];
    if k > |m.topic| { assert f[|m.topic|] == '\t'; }
  }

  /** A fragment costs the next message: that append succeeds and is reported as such, but the
      file gains a message that is not the one appended. If the fragment had got past its topic
      the file cannot even be rewritten with it, so every removal that is to keep it fails. */
  lemma {:induction false} FragmentLosesNext(text: string, m: Message, k: nat, next: Message)
    requires AtLineStart(text) && CleanMessage(m) && CleanMessage(next) && 0 < k < |LineOf(m)|
    ensures var g := Glued(Fragment(m, k), next);
            && Load(text + Fragment(m, k) + LineOf(next)) == Load(text) + [g] && g != next
            && (CleanMessage(g) <==> k <= |m.topic|)
  {
    hide Load, Find, ParseLine;
    var tail := Fragment(m, k);
    FragmentChars(m, k);
    var body := tail + next.topic + "\t" + next.payload;
    assert text + tail + LineOf(next) == text + (body + "\n");
    LoadAfterLines(text, body + "\n");
    TerminatedLine(body);
    GluedIs(tail, next);
    GluedClean(m, k, next);
  }

  lemma GluedClean(m: Message, k: nat, next: Message)
    requires CleanMessage(m) && CleanMessage(next) && 0 < k < |LineOf(m)|
    ensures CleanMessage(Glued(Fragment(m, k), next)) <==> k <= |m.topic|
  {
    hide Find;
    var tail := Fragment(m, k);
    FragmentChars(m, k);
    assert tail[..|tail|] == tail;
    assert forall j :: 0 <= j < k ==> tail[j] == LineOf(m)[j];
    var g := Glued(tail, next);
    if k <= |m.topic| {
      assert tail == m.topic[..k];
    } else {
      var tab := Find(tail, '\t');
      assert g.payload[|tail| - tab - 1 + |next.topic|] == '\t';
    }
  }

  /** An inherited message can be lost to a failed append: a file that ends in a line without its
      end is read as that message, and reads as another one once a further append gets a single
      character out. */
  lemma {:induction false} FailedAppendSpoils(j: Message, m: Message, k: nat)
    requires CleanMessage(j) && CleanMessage(m) && 0 < k <= |LineOf(m)|
    ensures var text := j.topic + "\t" + j.payload;
            Load(text) == [j] && |Load(text + LineOf(m)[..k])| == 1 && j !in Load(text + LineOf(m)[..k])
  {
    hide Load, ParseLine;
    var text := j.topic + "\t" + j.payload;
    assert '\n' !in text && text[|j.topic|] == '\t';
    UnterminatedLine(text);
    ParseCleanLine(j);
    var more := PartOnTail(text, m, k);
    LongerLine(text, more);
  }

  /** A fragment on a file that holds a queue reads as nothing or as one message cut short. */
  lemma {:induction false} FragmentReads(text: string, m: Message, k: nat)
    requires AtLineStart(text) && CleanMessage(m) && k < |LineOf(m)|
    ensures Load(text + Fragment(m, k)) == Load(text) + ParseLine(Fragment(m, k))
    ensures ParseLine(Fragment(m, k)) == if k <= |m.topic| then []
            else [Message(m.topic, Fragment(m, k)[|m.topic| + 1..])]
  {
    hide Load, Find;
    var tail := Fragment(m, k);
    FragmentChars(m, k);
    LoadAfterLines(text, tail);
    UnterminatedLine(tail);
    if k > |m.topic| {
      assert tail[..|m.topic|] == m.topic;
      FindIs(tail, '\t', |m.topic|);
    } else {
      NoTabNoMessage(tail);
    }
  }

  /** A removal that reads the whole file takes a fragment away, leaving exactly the queue, if and
      only if the fragment had not got past its topic or the removal reaches beyond the queue. */
  lemma {:induction false} RepairExact(q: seq<Message>, m: Message, k: nat, count: nat, r: Read)
    requires AllClean(q) && CleanMessage(m) && k < |LineOf(m)|
    requires r.opens && r.upTo >= |Format(q) + Fragment(m, k)|
    ensures Kept(Format(q) + Fragment(m, k), count, r) == Drop(q, count) <==> k <= |m.topic| || count > |q|
  {
    hide Load, Format, ParseLine, View;
    LoadFormat(q);
    FragmentReads(Format(q), m, k);
    ViewIsPrefix(Format(q) + Fragment(m, k), r);
    var all := q + ParseLine(Fragment(m, k));
    assert |Drop(all, count)| == if count < |all| then |all| - count else 0;
    if k <= |m.topic| { assert all == q; }
  }

  // ----- histories -----

  datatype FileOp =
    | DoAppend(m: Message, opens: bool, written: nat, good: bool)
    | DoLoad(r: Read)
    | DoRemove(count: nat, r: Read, succeeds: bool)

  /** A stream that is still good has written the whole line. */
  predicate Possible(op: FileOp) {
    op.DoAppend? && op.good ==> op.written >= |LineOf(op.m)|
  }

  function Written(op: FileOp): (k: nat)
    requires op.DoAppend?
    ensures k <= |LineOf(op.m)|
  {
    Out(op.m, op.opens, op.written)
  }

  /** What the call returns. */
  predicate Succeeds(text: string, op: FileOp) {
    match op
    case DoAppend(m, opens, _, good) => CleanMessage(m) && opens && good
    case DoLoad(_) => true
    case DoRemove(count, r, succeeds) => count == 0 || (succeeds && AllClean(Kept(text, count, r)))
  }

  /** Whether the call replaces the file. */
  predicate Rewrites(text: string, op: FileOp) {
    op.DoRemove? && op.count > 0 && Succeeds(text, op)
  }

  /** The file after the call. */
  function Apply(text: string, op: FileOp): string {
    if op.DoAppend? then text + LineOf(op.m)[..Written(op)]
    else if Rewrites(text, op) then Format(Kept(text, op.count, op.r))
    else text
  }

  /** The queue the caller believes in, from what the calls returned. */
  function Believe(q: seq<Message>, op: FileOp, ok: bool): seq<Message> {
    if !ok || op.DoLoad? then q else if op.DoAppend? then q + [op.m] else Drop(q, op.count)
  }

  function TextAfter(text: string, ops: seq<FileOp>): string {
    if |ops| == 0 then text else Apply(TextAfter(text, ops[..|ops| - 1]), ops[|ops| - 1])
  }

  function QueueAfter(text: string, ops: seq<FileOp>): seq<Message> {
    if |ops| == 0 then Load(text)
    else
      var before, op := ops[..|ops| - 1], ops[|ops| - 1];
      Believe(QueueAfter(text, before), op, Succeeds(TextAfter(text, before), op))
  }

  /** A strict part of a line was written, and neither a complete line nor a rewrite since. */
  predicate Torn(text: string, ops: seq<FileOp>) {
    if |ops| == 0 then false
    else
      var before, op := ops[..|ops| - 1], ops[|ops| - 1];
      if op.DoAppend? && Written(op) > 0 then Written(op) < |LineOf(op.m)|
      else !Rewrites(TextAfter(text, before), op) && Torn(text, before)
  }

  /** The object performs one operation of a history. */
  method Perform(cache: FileCache, op: FileOp) returns (ok: bool)
    requires Possible(op)
    modifies cache
    ensures cache.text == Apply(old(cache.text), op) && ok == Succeeds(old(cache.text), op)
  {
    hide Kept, Format, View, Load, CleanMessage;
    match op {
      case DoAppend(m, opens, written, good) =>
        ok := cache.Append(m, opens, written, good);
      case DoLoad(r) =>
        var messages := cache.LoadAll(r);
        ok := true;
      case DoRemove(count, r, succeeds) =>
        ok := cache.RemoveFirst(count, r, succeeds);
    }
  }

  /** The object carries out such a history, and any history can happen to it. */
  method RunFile(stored: string, ops: seq<FileOp>) returns (text: string, results: seq<bool>)
    requires forall k :: 0 <= k < |ops| ==> Possible(ops[k])
    ensures text == TextAfter(stored, ops) && |results| == |ops|
    ensures forall k :: 0 <= k < |ops| ==> results[k] == Succeeds(TextAfter(stored, ops[..k]), ops[k])
  {
    hide Apply, Succeeds, Possible;
    var cache := new FileCache(stored);
    results := [];
    for i := 0 to |ops|
      invariant fresh(cache) && cache.text == TextAfter(stored, ops[..i]) && |results| == i
      invariant forall k :: 0 <= k < i ==> results[k] == Succeeds(TextAfter(stored, ops[..k]), ops[k])
    {
      assert ops[..i + 1][..i] == ops[..i];
      var ok := Perform(cache, ops[i]);
      results := results + [ok];
    }
    assert ops[..|ops|] == ops;
    text := cache.text;
  }

  // ----- when the file reads as the queue -----

  /** On a file that ended at a line boundary, a fragment is there exactly when the last write
      was cut short. */
  lemma {:induction false} TornExact(text: string, ops: seq<FileOp>)
    requires AtLineStart(text)
    ensures Torn(text, ops) <==> !AtLineStart(TextAfter(text, ops))
  {
    hide Apply, Rewrites, Written, AtLineStart;
    if |ops| > 0 {
      TornExact(text, ops[..|ops| - 1]);
      ApplyBoundary(TextAfter(text, ops[..|ops| - 1]), ops[|ops| - 1]);
    }
  }

  lemma ApplyBoundary(text: string, op: FileOp)
    ensures AtLineStart(Apply(text, op)) <==>
            if op.DoAppend? && Written(op) > 0 then Written(op) == |LineOf(op.m)|
            else Rewrites(text, op) || AtLineStart(text)
  {
    hide Kept, Load, Format, Find;
    if op.DoAppend? {
      var k := Written(op);
      if 0 < k < |LineOf(op.m)| { FragmentChars(op.m, k); }
      assert k > 0 ==> Apply(text, op)[|text| + k - 1] == LineOf(op.m)[k - 1];
    } else if Rewrites(text, op) {
      LoadFormat(Kept(text, op.count, op.r));
    }
  }

  /** What follows the last complete line contains no tab, so it does not read as a message. */
  ghost predicate QuietTail(text: string) {
    exists i :: 0 <= i <= |text| && QuietFrom(text, i)
  }

  predicate QuietFrom(text: string, i: nat)
    requires i <= |text|
  {
    AtLineStart(text[..i]) && '\n' !in text[i..] && '\t' !in text[i..]
  }

  lemma QuietAtBoundary(text: string)
    requires AtLineStart(text)
    ensures QuietTail(text)
  {
    assert text[..|text|] == text;
    assert QuietFrom(text, |text|);
  }

  /** On such a file a failed append changes nothing that is read if and only if it did not get
      past the topic. */
  lemma {:induction false} FailedAppendExact(text: string, m: Message, k: nat)
    requires QuietTail(text) && CleanMessage(m) && k <= |LineOf(m)|
    ensures Load(text + LineOf(m)[..k]) == Load(text) <==> k <= |m.topic|
    ensures k <= |m.topic| ==> QuietTail(text + LineOf(m)[..k])
  {
    hide Load, Find, ParseLine;
    var i :| 0 <= i <= |text| && QuietFrom(text, i);
    var lines, tail, more := text[..i], text[i..], LineOf(m)[..k];
    assert text == lines + tail && text + more == lines + (tail + more);
    LoadAfterLines(lines, tail);
    LoadAfterLines(lines, tail + more);
    UnterminatedLine(tail);
    NoTabNoMessage(tail);
    if k < |LineOf(m)| {
      FragmentChars(m, k);
      UnterminatedLine(tail + more);
      NoTabNoMessage(tail + more);
      assert (text + more)[..i] == lines && (text + more)[i..] == tail + more;
      assert k <= |m.topic| ==> QuietFrom(text + more, i);
    } else {
      WholeLineRead(tail, m);
    }
  }

  lemma {:induction false} WholeLineRead(tail: string, m: Message)
    requires CleanMessage(m) && '\n' !in tail
    ensures |Load(tail + LineOf(m)[..|LineOf(m)|])| == 1
  {
    hide Load, Find, ParseLine;
    var body := tail + m.topic + "\t" + m.payload;
    assert tail + LineOf(m)[..|LineOf(m)|] == body + "\n";
    TerminatedLine(body);
    if |tail| > 0 {
      GluedIs(tail, m);
    } else {
      assert body == m.topic + "\t" + m.payload;
      ParseCleanLine(m);
    }
  }

  /** What keeps belief and file together, step by step: appends that succeed do not follow a
      fragment, appends that fail have not got past their topic, and removals have either seen
      the whole queue or take all of it. */
  predicate Harmless(text: string, before: seq<FileOp>, op: FileOp) {
    var now, queue := TextAfter(text, before), QueueAfter(text, before);
    match op
    case DoAppend(m, _, _, _) => if Succeeds(now, op) then !Torn(text, before) else Written(op) <= |m.topic|
    case DoLoad(_) => true
    case DoRemove(count, r, _) => Rewrites(now, op) ==> |View(now, r)| == |queue| || count >= |queue|
  }

  lemma {:induction false} AppendAgrees(text: string, op: FileOp)
    requires op.DoAppend? && Possible(op) && QuietTail(text)
    ensures var same := if Succeeds(text, op) then AtLineStart(text) else Written(op) <= |op.m.topic|;
            && (Load(Apply(text, op)) == Believe(Load(text), op, Succeeds(text, op)) <==> same)
            && (same ==> QuietTail(Apply(text, op)))
  {
    hide Load, QuietTail;
    if Succeeds(text, op) {
      assert LineOf(op.m)[..|LineOf(op.m)|] == LineOf(op.m);
      AppendExact(text, op.m);
      assert AtLineStart(text + LineOf(op.m));
      QuietAtBoundary(text + LineOf(op.m));
    } else if Written(op) == 0 {
      assert text + LineOf(op.m)[..0] == text;
    } else {
      FailedAppendExact(text, op.m, Written(op));
    }
  }

  lemma {:induction false} RemoveAgrees(text: string, op: FileOp)
    requires op.DoRemove? && QuietTail(text)
    ensures var q := Load(text);
            var same := Rewrites(text, op) ==> |View(text, op.r)| == |q| || op.count >= |q|;
            && (Load(Apply(text, op)) == Believe(q, op, Succeeds(text, op)) <==> same)
            && QuietTail(Apply(text, op))
  {
    hide Load, QuietTail, View, Format;
    if Rewrites(text, op) {
      RewriteExact(text, op.count, op.r);
      LoadFormat(Kept(text, op.count, op.r));
      QuietAtBoundary(Apply(text, op));
    }
  }

  predicate Agrees(text: string, ops: seq<FileOp>) {
    Load(TextAfter(text, ops)) == QueueAfter(text, ops)
  }

  lemma {:induction false} StepAgrees(text: string, before: seq<FileOp>, op: FileOp)
    requires AtLineStart(text) && Possible(op) && Agrees(text, before) && QuietTail(TextAfter(text, before))
    ensures var ops := before + [op];
            && (Agrees(text, ops) <==> Harmless(text, before, op))
            && (Agrees(text, ops) ==> QuietTail(TextAfter(text, ops)))
  {
    var ops := before + [op];
    assert ops[..|ops| - 1] == before;
    var now := TextAfter(text, before);
    assert TextAfter(text, ops) == Apply(now, op);
    assert QueueAfter(text, ops) == Believe(QueueAfter(text, before), op, Succeeds(now, op));
    hide TextAfter, QueueAfter, Load, QuietTail, View, AtLineStart;
    TornExact(text, before);
    if op.DoAppend? {
      AppendAgrees(now, op);
    } else if op.DoRemove? {
      RemoveAgrees(now, op);
    }
  }

  /** The file reads as the queue after every operation. */
  ghost predicate AllAgree(text: string, ops: seq<FileOp>) {
    forall k :: 0 <= k <= |ops| ==> Agrees(text, ops[..k])
  }

  ghost predicate AllHarmless(text: string, ops: seq<FileOp>) {
    forall k :: 0 <= k < |ops| ==> Harmless(text, ops[..k], ops[k])
  }

  lemma AllSnoc(text: string, before: seq<FileOp>, op: FileOp)
    ensures AllAgree(text, before + [op]) <==> AllAgree(text, before) && Agrees(text, before + [op])
    ensures AllHarmless(text, before + [op]) <==> AllHarmless(text, before) && Harmless(text, before, op)
    ensures AllAgree(text, before) ==> Agrees(text, before)
  {
    hide Agrees, Harmless;
    var ops := before + [op];
    assert forall k :: 0 <= k <= |before| ==> ops[..k] == before[..k];
    assert before[..|before|] == before && ops[..|ops|] == ops;
    assert forall k :: 0 <= k < |before| ==> ops[k] == before[k];
    assert ops[|before|] == op;
  }

  /** Starting on a file that ends at a line boundary: the file reads as the queue the caller
      believes in after every operation if and only if every operation is harmless. */
  lemma {:induction false} ScriptExact(text: string, ops: seq<FileOp>)
    requires AtLineStart(text) && forall k :: 0 <= k < |ops| ==> Possible(ops[k])
    ensures AllAgree(text, ops) <==> AllHarmless(text, ops)
    ensures AllAgree(text, ops) ==> QuietTail(TextAfter(text, ops))
  {
    if |ops| == 0 {
      QuietAtBoundary(text);
    } else {
      hide Agrees, AllAgree, AllHarmless, Harmless, QuietTail, TextAfter, AtLineStart, Possible;
      var before, op := ops[..|ops| - 1], ops[|ops| - 1];
      assert ops == before + [op];
      ScriptExact(text, before);
      AllSnoc(text, before, op);
      if AllAgree(text, before) { StepAgrees(text, before, op); }
    }
  }
}
