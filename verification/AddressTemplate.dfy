/** How the MQTT scoop fills an address template from a topic. A level's text is put in
    place of its placeholder and then searched again, so the replacing may never end:
    exactly when it does, and with what, is stated here. */
module AddressTemplate {
  import opened GetLine
  import opened Wrappers

  predicate OccursAt(s: string, p: string, i: nat) {
    i + |p| <= |s| && s[i..i + |p|] == p
  }

  predicate Contains(s: string, p: string) {
    exists i: nat | i <= |s| :: OccursAt(s, p, i)
  }

  function FirstFrom(s: string, p: string, from: nat): (i: nat)
    requires exists k: nat | from <= k <= |s| :: OccursAt(s, p, k)
    ensures from <= i <= |s| && OccursAt(s, p, i) && forall k: nat | from <= k < i :: !OccursAt(s, p, k)
    decreases |s| - from
  {
    if OccursAt(s, p, from) then from else FirstFrom(s, p, from + 1)
  }

  /** The first occurrence. */
  function First(s: string, p: string): (i: nat)
    requires Contains(s, p)
    ensures OccursAt(s, p, i) && i + |p| <= |s| && forall k: nat | k < i :: !OccursAt(s, p, k)
  {
    FirstFrom(s, p, 0)
  }

  // ------------------------------------------------------- replacing a placeholder

  /** The replacing loop on the text from its position on, in at most n rounds: has it
      ended, and if so with what. */
  ghost function Run(s: string, p: string, level: string, n: nat): Option<string>
    decreases n
  {
    if !Contains(s, p) then Some(s)
    else if n == 0 then None
    else
      var i := First(s, p);
      var rest := Run(level + s[i + |p|..], p, level, n - 1);
      if rest.Some? then Some(s[..i] + rest.value) else None
  }

  lemma RunStep(s: string, p: string, level: string, n: nat)
    ensures !Contains(s, p) ==> Run(s, p, level, n) == Some(s)
    ensures Contains(s, p) && n == 0 ==> Run(s, p, level, n) == None
    ensures Contains(s, p) && n > 0 ==>
      var i := First(s, p); var rest := Run(level + s[i + |p|..], p, level, n - 1);
      Run(s, p, level, n) == if rest.Some? then Some(s[..i] + rest.value) else None
  {
    hide OccursAt, Contains;
  }

  /** One round, with the pieces of the text named. */
  lemma RunRound(s: string, p: string, level: string, n: nat, before: string, after: string)
    requires Contains(s, p) && n > 0 && before == s[..First(s, p)] && after == s[First(s, p) + |p|..]
    ensures var rest := Run(level + after, p, level, n - 1);
      Run(s, p, level, n) == if rest.Some? then Some(before + rest.value) else None
  {
    hide Contains, OccursAt, First;
  }

  lemma RunRoundEnds(s: string, p: string, level: string, n: nat, before: string, after: string, rest: string)
    requires Contains(s, p) && n > 0 && before == s[..First(s, p)] && after == s[First(s, p) + |p|..]
    requires Run(level + after, p, level, n - 1) == Some(rest)
    ensures Run(s, p, level, n) == Some(before + rest)
  {
    hide *;
    RunRound(s, p, level, n, before, after);
  }

  /** The loop goes on for ever: there is something to replace, and what replaces it
      contains it. */
  predicate Loops(s: string, p: string, level: string) {
    Contains(s, p) && Contains(level, p)
  }

  lemma ContainsAfter(level: string, p: string, tail: string)
    requires Contains(level, p)
    ensures Contains(level + tail, p)
  {
    var i: nat :| i <= |level| && OccursAt(level, p, i);
    assert (level + tail)[i..i + |p|] == level[i..i + |p|];
    assert OccursAt(level + tail, p, i);
  }

  lemma {:induction false} LoopsForever(s: string, p: string, level: string, n: nat)
    requires Loops(s, p, level)
    ensures Run(s, p, level, n) == None
    decreases n
  {
    if n > 0 {
      var rest := s[First(s, p) + |p|..];
      ContainsAfter(level, p, rest);
      LoopsForever(level + rest, p, level, n - 1);
    }
  }

  /** A replacement that does not contain the placeholder uses up some of what follows. */
  lemma UsesUp(level: string, p: string, tail: string)
    requires p != "" && !Contains(level, p) && Contains(level + tail, p)
    ensures First(level + tail, p) + |p| > |level|
  {
    var i := First(level + tail, p);
    if i + |p| <= |level| {
      assert (level + tail)[i..i + |p|] == level[i..i + |p|];
      assert OccursAt(level, p, i);
    }
  }

  lemma {:induction false} EndsOnTail(tail: string, p: string, level: string, n: nat)
    requires p != "" && !Contains(level, p) && n >= |tail|
    ensures Run(level + tail, p, level, n).Some?
    decreases |tail|
  {
    hide Run, Contains, OccursAt;
    var s := level + tail;
    RunStep(s, p, level, n);
    if Contains(s, p) {
      UsesUp(level, p, tail);
      var k := First(s, p) + |p|;
      assert s[k..] == tail[k - |level|..];
      EndsOnTail(tail[k - |level|..], p, level, n - 1);
    }
  }

  /** Main result: the replacing ends exactly when it does not loop, and then within as
      many rounds as the text has characters. */
  lemma EndsUnlessItLoops(s: string, p: string, level: string)
    requires p != ""
    ensures (exists n: nat :: Run(s, p, level, n).Some?) <==> !Loops(s, p, level)
    ensures !Loops(s, p, level) ==> Run(s, p, level, |s|).Some?
  {
    if Loops(s, p, level) {
      forall n: nat
        ensures Run(s, p, level, n) == None
      {
        LoopsForever(s, p, level, n);
      }
    } else {
      EndsInTime(s, p, level);
      hide Run, Loops;
      assert Run(s, p, level, |s|).Some?;
    }
  }

  lemma EndsInTime(s: string, p: string, level: string)
    requires p != "" && !Loops(s, p, level)
    ensures Run(s, p, level, |s|).Some?
  {
    RunStep(s, p, level, |s|);
    hide Run, Contains, OccursAt;
    if Contains(s, p) {
      EndsOnTail(s[First(s, p) + |p|..], p, level, |s| - 1);
    }
  }

  lemma {:induction false} RunIsStable(s: string, p: string, level: string, n: nat, m: nat)
    requires Run(s, p, level, n).Some? && Run(s, p, level, m).Some?
    ensures Run(s, p, level, n) == Run(s, p, level, m)
    decreases n
  {
    if Contains(s, p) {
      RunIsStable(level + s[First(s, p) + |p|..], p, level, n - 1, m - 1);
    }
  }

  /** What the replacing ends with. */
  ghost function Outcome(s: string, p: string, level: string): Option<string> {
    Run(s, p, level, |s|)
  }

  /** Every occurrence of the placeholder replaced, once and from the left. */
  ghost function Substituted(s: string, p: string, level: string): string
    requires p != ""
    decreases |s|
  {
    if !Contains(s, p) then s
    else s[..First(s, p)] + level + Substituted(s[First(s, p) + |p|..], p, level)
  }

  lemma FirstIs(s: string, p: string, i: nat)
    requires i <= |s| && OccursAt(s, p, i) && forall k: nat | k < i :: !OccursAt(s, p, k)
    ensures Contains(s, p) && First(s, p) == i
  {
    assert Contains(s, p);
  }

  /** A level without braces can neither hold a placeholder nor begin one. */
  lemma BracelessFirst(level: string, tail: string, p: string)
    requires p != "" && p[0] == '{' && '{' !in level
    ensures Contains(level + tail, p) <==> Contains(tail, p)
    ensures Contains(tail, p) ==> First(level + tail, p) == |level| + First(tail, p)
  {
    var s := level + tail;
    forall i: nat
      ensures OccursAt(s, p, i) <==> i >= |level| && OccursAt(tail, p, i - |level|)
    {
      OccursInTail(level, tail, p, i);
    }
    hide OccursAt;
    if Contains(s, p) {
      var i: nat :| i <= |s| && OccursAt(s, p, i);
      assert OccursAt(tail, p, i - |level|);
    }
    if Contains(tail, p) {
      var i := First(tail, p);
      assert OccursAt(s, p, |level| + i);
      forall k: nat | k < |level| + i
        ensures !OccursAt(s, p, k)
      {
        assert k >= |level| ==> !OccursAt(tail, p, k - |level|);
      }
      FirstIs(s, p, |level| + i);
    }
  }

  lemma OccursInTail(level: string, tail: string, p: string, i: nat)
    requires p != "" && p[0] == '{' && '{' !in level
    ensures OccursAt(level + tail, p, i) <==> i >= |level| && OccursAt(tail, p, i - |level|)
  {
    var s := level + tail;
    if i >= |level| {
      assert i + |p| <= |s| ==> s[i..i + |p|] == tail[i - |level|..i - |level| + |p|];
    } else {
      assert s[i] == level[i] && level[i] in level;
      assert i + |p| <= |s| ==> s[i..i + |p|][0] == s[i];
    }
  }

  lemma BracelessStep(tail: string, p: string, level: string, n: nat)
    requires p != "" && p[0] == '{' && '{' !in level && Contains(tail, p) && n > 0
    ensures var i := First(tail, p);
      var rest := Run(level + tail[i + |p|..], p, level, n - 1);
      Run(level + tail, p, level, n) == if rest.Some? then Some((level + tail[..i]) + rest.value) else None
  {
    BracelessFirst(level, tail, p);
    var i := First(tail, p);
    CutBehind(level, tail, i, |p|);
    hide *;
    RunRound(level + tail, p, level, n, level + tail[..i], tail[i + |p|..]);
  }

  lemma {:induction false} RunBraceless(tail: string, p: string, level: string, n: nat)
    requires p != "" && p[0] == '{' && '{' !in level && n >= |tail|
    ensures Run(level + tail, p, level, n) == Some(level + Substituted(tail, p, level))
    decreases |tail|
  {
    hide *;
    SubstitutedStep(tail, p, level);
    if Contains(tail, p) {
      var i := First(tail, p);
      var rest := tail[i + |p|..];
      BracelessStep(tail, p, level, n);
      RunBraceless(rest, p, level, n - 1);
      Regrouped(level, tail[..i], Substituted(rest, p, level));
    } else {
      BracelessFirst(level, tail, p);
      RunStep(level + tail, p, level, n);
    }
  }

  lemma CutBehind(level: string, tail: string, i: nat, n: nat)
    requires i + n <= |tail|
    ensures (level + tail)[|level| + i + n..] == tail[i + n..] && (level + tail)[..|level| + i] == level + tail[..i]
  {
  }

  lemma Associates(a: string, b: string, c: string)
    ensures a + (b + c) == a + b + c
  {
  }

  lemma Regrouped(level: string, a: string, b: string)
    ensures (level + a) + (level + b) == level + (a + level + b)
  {
  }

  lemma SubstitutedStep(s: string, p: string, level: string)
    requires p != ""
    ensures Substituted(s, p, level) == if !Contains(s, p) then s
            else s[..First(s, p)] + level + Substituted(s[First(s, p) + |p|..], p, level)
  {
    hide Contains, OccursAt;
  }

  lemma OutcomeIsRun(s: string, p: string, level: string)
    ensures Outcome(s, p, level) == Run(s, p, level, |s|)
  {
  }

  /** For a level without an opening brace the loop is plain substitution. */
  lemma BracelessSubstitutes(s: string, p: string, level: string)
    requires p != "" && p[0] == '{' && '{' !in level
    ensures Outcome(s, p, level) == Some(Substituted(s, p, level))
  {
    hide *;
    OutcomeIsRun(s, p, level);
    SubstitutedStep(s, p, level);
    if Contains(s, p) {
      var i := First(s, p);
      RunBraceless(s[i + |p|..], p, level, |s| - 1);
      BracelessRound(s, p, level, s[..i], s[i + |p|..]);
    } else {
      RunStep(s, p, level, |s|);
    }
  }

  lemma BracelessRound(s: string, p: string, level: string, before: string, after: string)
    requires p != "" && Contains(s, p) && before == s[..First(s, p)] && after == s[First(s, p) + |p|..]
    requires Run(level + after, p, level, |s| - 1) == Some(level + Substituted(after, p, level))
    ensures Run(s, p, level, |s|) == Some(Substituted(s, p, level))
  {
    hide *;
    var filled := Substituted(after, p, level);
    RunRoundEnds(s, p, level, |s|, before, after, level + filled);
    SubstitutedStep(s, p, level);
    Associates(before, level, filled);
  }

  /** pos is the first occurrence from a position on, or beyond the text. */
  ghost predicate Found(s: string, p: string, from: nat, pos: nat)
    requires from <= |s|
  {
    if pos <= |s| then Contains(s[from..], p) && pos == from + First(s[from..], p)
    else !Contains(s[from..], p)
  }

  method Find(s: string, p: string, from: nat) returns (pos: nat)
    requires from <= |s|
    ensures Found(s, p, from, pos)
  {
    pos := from;
    ghost var rest := s[from..];
    while pos + |p| <= |s| && s[pos..pos + |p|] != p
      invariant from <= pos <= |s| + 1
      invariant forall k: nat | k < pos - from :: !OccursAt(rest, p, k)
    {
      assert rest[pos - from..pos - from + |p|] == s[pos..pos + |p|];
      pos := pos + 1;
    }
    if pos + |p| <= |s| {
      assert rest[pos - from..pos - from + |p|] == s[pos..pos + |p|];
      FirstIs(rest, p, pos - from);
    } else {
      assert forall k: nat | k >= pos - from :: !OccursAt(rest, p, k);
      pos := |s| + 1;
    }
  }

  /** std::string::replace. */
  function ReplacedAt(s: string, pos: nat, n: nat, text: string): (r: string)
    requires pos + n <= |s|
    ensures pos <= |r|
  {
    s[..pos] + text + s[pos + n..]
  }

  /** Where the loop stands after some rounds: the text before from is final, and what
      remains is the template or a level followed by its tail. */
  ghost predicate Standing(template: string, p: string, level: string, address: string, from: nat, tail: string,
                           left: nat) {
    && from <= |address|
    && var rest := address[from..]; var outcome := Run(rest, p, level, left);
       && (rest == level + tail || rest == tail)
       && (Contains(rest, p) ==> !Contains(level, p))
       && outcome.Some? && Outcome(template, p, level) == Some(address[..from] + outcome.value)
  }

  /** The same with the position of the next placeholder. */
  datatype Round = Round(address: string, from: nat, tail: string, left: nat, pos: nat)

  ghost predicate Stands(template: string, p: string, level: string, r: Round) {
    && Standing(template, p, level, r.address, r.from, r.tail, r.left)
    && Found(r.address, p, r.from, r.pos)
  }

  lemma StandsAtStart(template: string, p: string, level: string, pos: nat)
    requires p != "" && !Loops(template, p, level) && Found(template, p, 0, pos)
    ensures Stands(template, p, level, Round(template, 0, template, |template|, pos))
  {
    EndsUnlessItLoops(template, p, level);
    hide Run, Found;
    assert template[0..] == template;
    assert Outcome(template, p, level) == Run(template, p, level, |template|);
    assert template[..0] + Outcome(template, p, level).value == Outcome(template, p, level).value;
  }

  /** One round: the replaced text stands again, with less to come. */
  lemma StandsNext(template: string, p: string, level: string, r: Round) returns (tail: string)
    requires p != "" && Stands(template, p, level, r) && r.pos <= |r.address|
    ensures r.pos + |p| <= |r.address| && r.left > 0 && |tail| < |r.tail|
    ensures forall pos: nat | Found(ReplacedAt(r.address, r.pos, |p|, level), p, r.pos, pos) ::
              Stands(template, p, level, Round(ReplacedAt(r.address, r.pos, |p|, level), r.pos, tail, r.left - 1, pos))
  {
    tail := StandingNext(template, p, level, r.address, r.from, r.tail, r.left, r.pos);
    hide Standing, Found, ReplacedAt;
  }

  lemma StandingNext(template: string, p: string, level: string, address: string, from: nat, tail: string, left: nat,
                     pos: nat)
    returns (tail': string)
    requires p != "" && Standing(template, p, level, address, from, tail, left)
    requires pos <= |address| && Found(address, p, from, pos)
    ensures pos + |p| <= |address| && left > 0 && |tail'| < |tail|
    ensures Standing(template, p, level, ReplacedAt(address, pos, |p|, level), pos, tail', left - 1)
  {
    hide *;
    StandingMoves(template, p, level, address, from, tail, left);
    FoundHere(p, address, from, pos);
    var rest := address[from..];
    var i := First(rest, p);
    if rest == level + tail {
      UsesUp(level, p, tail);
    }
    LeftForMore(rest, p, level, left);
    tail' := rest[i + |p|..];
    CutAgain(address, from, i, |p|, level);
    RunRound(rest, p, level, left, rest[..i], tail');
    var outcome := Run(level + tail', p, level, left - 1).value;
    RunRoundEnds(rest, p, level, left, rest[..i], tail', outcome);
    Associates(address[..from], rest[..i], outcome);
    StandingAgain(template, p, level, ReplacedAt(address, pos, |p|, level), pos, tail', left - 1);
  }

  lemma CutAgain(address: string, from: nat, i: nat, n: nat, level: string)
    requires from + i + n <= |address|
    ensures var next := ReplacedAt(address, from + i, n, level);
      && address[from + i + n..] == address[from..][i + n..]
      && next[from + i..] == level + address[from..][i + n..]
      && next[..from + i] == address[..from] + address[from..][..i]
  {
  }

  lemma LeftForMore(s: string, p: string, level: string, n: nat)
    requires Run(s, p, level, n).Some? && Contains(s, p)
    ensures n > 0
  {
  }

  lemma StandingMoves(template: string, p: string, level: string, address: string, from: nat, tail: string, left: nat)
    requires Standing(template, p, level, address, from, tail, left)
    ensures from <= |address| && Run(address[from..], p, level, left).Some?
    ensures Outcome(template, p, level) == Some(address[..from] + Run(address[from..], p, level, left).value)
    ensures Contains(address[from..], p) ==> !Contains(level, p)
    ensures address[from..] == level + tail || address[from..] == tail
  {
    hide Run, Contains, Outcome;
  }

  lemma FoundHere(p: string, address: string, from: nat, pos: nat)
    requires from <= |address| && pos <= |address| && Found(address, p, from, pos)
    ensures Contains(address[from..], p) && pos == from + First(address[from..], p)
  {
    hide Contains, First;
  }

  lemma StandingAgain(template: string, p: string, level: string, address: string, from: nat, tail: string, left: nat)
    requires from <= |address| && address[from..] == level + tail && !Contains(level, p)
    requires Run(address[from..], p, level, left).Some?
    requires Outcome(template, p, level) == Some(address[..from] + Run(address[from..], p, level, left).value)
    ensures Standing(template, p, level, address, from, tail, left)
  {
    hide Run, Contains, Outcome;
  }

  lemma StandsDone(template: string, p: string, level: string, r: Round)
    requires Stands(template, p, level, r) && r.pos > |r.address|
    ensures Outcome(template, p, level) == Some(r.address)
  {
    RunStep(r.address[r.from..], p, level, r.left);
    assert r.address[..r.from] + r.address[r.from..] == r.address;
  }

  /** The replacing loop for one placeholder, where it ends. */
  method ReplaceEach(template: string, p: string, level: string) returns (address: string)
    requires p != "" && !Loops(template, p, level)
    ensures Outcome(template, p, level) == Some(address)
  {
    hide *;
    address := template;
    var pos: nat := Find(address, p, 0);
    ghost var r := Round(address, 0, template, |template|, pos);
    StandsAtStart(template, p, level, pos);
    while pos <= |address|
      invariant Stands(template, p, level, r) && r.address == address && r.pos == pos
      decreases |r.tail|
    {
      ghost var tail := StandsNext(template, p, level, r);
      address := ReplacedAt(address, pos, |p|, level);
      pos := Find(address, p, pos);
      r := Round(address, r.pos, tail, r.left - 1, pos);
    }
    StandsDone(template, p, level, r);
  }

  // ------------------------------------------------------------- the whole template

  function Digits(i: nat): string {
    if i < 10 then ["0123456789"[i]] else Digits(i / 10) + ["0123456789"[i % 10]]
  }

  function Placeholder(i: nat): (p: string)
    ensures p != "" && p[0] == '{'
  {
    "{level" + Digits(i) + "}"
  }

  const TOPIC: string := "{topic}"

  /** The first mention of the whole topic is replaced, once. */
  function WithTopic(template: string, topic: string): string {
    if Contains(template, TOPIC) then ReplacedAt(template, First(template, TOPIC), |TOPIC|, topic) else template
  }

  lemma NoBraceNoTopic(a: string, i: nat)
    requires '{' !in a && i < |a|
    ensures forall rest: string :: !OccursAt(a + rest, "{topic}", i)
  {
    forall rest: string
      ensures !OccursAt(a + rest, "{topic}", i)
    {
      assert (a + rest)[i] == a[i] && a[i] in a;
    }
  }

  /** The first "{topic}" stands for the whole topic, and later ones are left. */
  lemma TopicReplacedOnce(a: string, b: string, topic: string)
    requires '{' !in a
    ensures WithTopic(a + "{topic}" + b, topic) == a + topic + b
  {
    var s := a + "{topic}" + b;
    assert s == a + ("{topic}" + b) && s[|a|..|a| + 7] == "{topic}" && s[|a| + 7..] == b && s[..|a|] == a;
    assert OccursAt(s, "{topic}", |a|);
    forall i: nat | i < |a|
      ensures !OccursAt(s, "{topic}", i)
    {
      NoBraceNoTopic(a, i);
    }
    assert Contains(s, "{topic}") && First(s, "{topic}") == |a|;
  }

  /** The placeholders of levels i and up replaced in turn; None if one of them loops. */
  ghost function Filled(address: string, levels: seq<string>, i: nat): Option<string>
    requires i <= |levels|
    decreases |levels| - i
  {
    if i == |levels| then Some(address)
    else
      var r := Outcome(address, Placeholder(i), levels[i]);
      if r.Some? then Filled(r.value, levels, i + 1) else None
  }

  /** generate_address. None stands for a call that does not return. */
  method GenerateAddress(template: string, topic: string) returns (address: Option<string>)
    ensures address == Filled(WithTopic(template, topic), Lines(topic), 0)
  {
    var pos := Find(template, TOPIC, 0);
    assert template[0..] == template;
    var text := if pos <= |template| then ReplacedAt(template, pos, |TOPIC|, topic) else template;
    assert text == WithTopic(template, topic);
    var levels := Split(topic);
    hide WithTopic, Outcome, Lines, Placeholder, Contains;
    for i := 0 to |levels|
      invariant Filled(text, levels, i) == Filled(WithTopic(template, topic), Lines(topic), 0)
    {
      OutcomeEnds(text, Placeholder(i), levels[i]);
      if Contains(text, Placeholder(i)) && Contains(levels[i], Placeholder(i)) {
        return None;
      }
      text := ReplaceEach(text, Placeholder(i), levels[i]);
    }
    address := Some(text);
  }

  lemma OutcomeEnds(s: string, p: string, level: string)
    requires p != ""
    ensures Outcome(s, p, level).Some? <==> !Loops(s, p, level)
  {
    EndsUnlessItLoops(s, p, level);
    hide Run, Loops;
    assert Outcome(s, p, level) == Run(s, p, level, |s|);
  }

  // ------------------------------------------------ when the template is filled

  /** The stage at which filling goes on for ever: the text filled so far has the
      placeholder of a level, and so has the level itself. */
  ghost predicate LoopsAt(address: string, levels: seq<string>, i: nat, k: nat)
    requires i <= k < |levels|
  {
    var text := Filled(address, levels[..k], i);
    text.Some? && Loops(text.value, Placeholder(k), levels[k])
  }

  lemma {:induction false} FilledStep(address: string, levels: seq<string>, i: nat, k: nat)
    requires i <= k < |levels|
    ensures var text := Filled(address, levels[..k], i);
      Filled(address, levels[..k + 1], i) == if text.Some? then Outcome(text.value, Placeholder(k), levels[k]) else None
    decreases k - i
  {
    hide Outcome, Placeholder;
    if i == k {
      assert levels[..k + 1][k] == levels[k];
    } else {
      assert levels[..k][i] == levels[i] == levels[..k + 1][i];
      var r := Outcome(address, Placeholder(i), levels[i]);
      if r.Some? {
        FilledStep(r.value, levels, i + 1, k);
      }
    }
  }

  /** Main result on whole templates: filling goes on for ever if and only if some level
      contains its own placeholder and the text filled up to it does so too. */
  lemma {:induction false} FilledUnlessItLoops(address: string, levels: seq<string>, i: nat)
    requires i <= |levels|
    ensures Filled(address, levels, i) == None <==> exists k :: i <= k < |levels| && LoopsAt(address, levels, i, k)
    decreases |levels| - i
  {
    assert levels[..|levels|] == levels;
    FilledPrefix(address, levels, i, |levels|);
  }

  lemma {:induction false} FilledPrefix(address: string, levels: seq<string>, i: nat, n: nat)
    requires i <= n <= |levels|
    ensures Filled(address, levels[..n], i) == None <==> exists k :: i <= k < n && LoopsAt(address, levels, i, k)
    decreases n
  {
    hide Outcome, Placeholder, Loops;
    if i < n {
      var k := n - 1;
      FilledPrefix(address, levels, i, k);
      FilledStep(address, levels, i, k);
      var text := Filled(address, levels[..k], i);
      if text.Some? {
        OutcomeEnds(text.value, Placeholder(k), levels[k]);
        assert LoopsAt(address, levels, i, k) <==> Loops(text.value, Placeholder(k), levels[k]);
      }
    }
  }

  /** Placeholders are told apart by where their braces are. */
  ghost predicate Braced(p: string) {
    && |p| >= 2 && p[0] == '{' && p[|p| - 1] == '}'
    && forall i | 1 <= i < |p| - 1 :: p[i] != '{' && p[i] != '}'
  }

  lemma {:induction false} DigitsPlain(i: nat)
    ensures Digits(i) != [] && forall c | c in Digits(i) :: c != '{' && c != '}'
    decreases i
  {
    if i >= 10 {
      DigitsPlain(i / 10);
    }
  }

  lemma PlaceholderBraced(i: nat)
    ensures Braced(Placeholder(i))
  {
    DigitsPlain(i);
    var d := Digits(i);
    var p := Placeholder(i);
    assert |p| == |d| + 7 && p[|p| - 1] == '}' && p[0] == '{';
    forall k | 1 <= k < |p| - 1
      ensures p[k] != '{' && p[k] != '}'
    {
      if k < 6 {
        assert p[k] == "{level"[k];
      } else {
        assert p[k] == d[k - 6] && d[k - 6] in d;
      }
    }
  }

  lemma OccursCharacter(s: string, p: string, i: nat, k: nat)
    requires OccursAt(s, p, i) && k < |p|
    ensures i + k < |s| && s[i + k] == p[k]
  {
    assert s[i..i + |p|][k] == s[i + k];
  }

  /** No placeholder begins inside another. */
  lemma NotInside(s: string, p: string, i: nat, q: string, j: nat)
    requires Braced(p) && Braced(q) && OccursAt(s, p, i) && OccursAt(s, q, j)
    ensures !(i < j < i + |p|)
  {
    hide OccursAt;
    if i < j < i + |p| {
      OccursCharacter(s, p, i, j - i);
      OccursCharacter(s, q, j, 0);
      assert false;
    }
  }

  lemma NotShorter(s: string, p: string, q: string, i: nat)
    requires Braced(p) && Braced(q) && OccursAt(s, p, i) && OccursAt(s, q, i)
    ensures |p| >= |q|
  {
    hide OccursAt;
    if |p| < |q| {
      OccursCharacter(s, p, i, |p| - 1);
      OccursCharacter(s, q, i, |p| - 1);
      assert false;
    }
  }

  /** Two occurrences of different placeholders do not overlap. */
  lemma Apart(s: string, p: string, i: nat, q: string, j: nat)
    requires Braced(p) && Braced(q) && OccursAt(s, p, i) && OccursAt(s, q, j) && p != q
    ensures i + |p| <= j || j + |q| <= i
  {
    NotInside(s, p, i, q, j);
    NotInside(s, q, j, p, i);
    if i == j {
      NotShorter(s, p, q, i);
      NotShorter(s, q, p, i);
      assert false;
    }
  }

  lemma InPart(a: string, b: string, c: string, q: string)
    requires Contains(b, q)
    ensures Contains(a + b + c, q)
  {
    var j: nat :| j <= |b| && OccursAt(b, q, j);
    assert (a + b + c)[|a| + j..|a| + j + |q|] == b[j..j + |q|];
    assert OccursAt(a + b + c, q, |a| + j);
  }

  lemma OutsideIsKept(s: string, p: string, q: string)
    requires Braced(p) && Braced(q) && p != q && Contains(s, p) && Contains(s, q)
    ensures Contains(s[..First(s, p)], q) || Contains(s[First(s, p) + |p|..], q)
  {
    var i := First(s, p);
    var j: nat :| j <= |s| && OccursAt(s, q, j);
    Apart(s, p, i, q, j);
    if j + |q| <= i {
      assert s[..i][j..j + |q|] == s[j..j + |q|];
      assert OccursAt(s[..i], q, j);
    } else {
      var k := j - (i + |p|);
      assert s[i + |p|..][k..k + |q|] == s[j..j + |q|];
      assert OccursAt(s[i + |p|..], q, k);
    }
  }

  /** Replacing one placeholder leaves another where it is. */
  lemma {:induction false} RunKeeps(s: string, p: string, level: string, n: nat, q: string)
    requires Braced(p) && Braced(q) && p != q && Contains(s, q) && Run(s, p, level, n).Some?
    ensures Contains(Run(s, p, level, n).value, q)
    decreases n
  {
    hide Run, Contains, OccursAt, Braced, First;
    RunStep(s, p, level, n);
    if Contains(s, p) {
      var i := First(s, p);
      var before, after := s[..i], s[i + |p|..];
      var rest := Run(level + after, p, level, n - 1).value;
      OutsideIsKept(s, p, q);
      if Contains(before, q) {
        InPart("", before, rest, q);
        assert "" + before + rest == before + rest;
      } else {
        InPart(level, after, "", q);
        assert level + after + "" == level + after;
        RunKeeps(level + after, p, level, n - 1, q);
        InPart(before, rest, "", q);
        assert before + rest + "" == before + rest;
      }
    }
  }

  lemma {:induction false} DigitsNumber(i: nat)
    ensures NumberOf(Digits(i)) == i
    decreases i
  {
    if i >= 10 {
      DigitsNumber(i / 10);
      var d := Digits(i);
      assert d[..|d| - 1] == Digits(i / 10) && d[|d| - 1] == "0123456789"[i % 10];
      DigitValue(i % 10);
    } else {
      DigitValue(i);
      assert Digits(i)[..0] == [];
    }
  }

  ghost function NumberOf(digits: string): int {
    if digits == [] then 0 else NumberOf(digits[..|digits| - 1]) * 10 + ValueOf(digits[|digits| - 1])
  }

  ghost function ValueOf(c: char): int { c as int - '0' as int }

  lemma DigitValue(d: nat)
    requires d < 10
    ensures ValueOf("0123456789"[d]) == d
  {
  }

  lemma PlaceholdersDiffer(i: nat, k: nat)
    requires i != k
    ensures Placeholder(i) != Placeholder(k)
  {
    DigitsNumber(i);
    DigitsNumber(k);
    var p, q := Placeholder(i), Placeholder(k);
    assert p[6..|p| - 1] == Digits(i) && q[6..|q| - 1] == Digits(k);
    hide Digits, NumberOf;
  }

  lemma FilledKeeps(address: string, levels: seq<string>, i: nat, q: string)
    requires i < |levels| && Contains(address, q) && Braced(q) && q != Placeholder(i)
    ensures var r := Outcome(address, Placeholder(i), levels[i]); r.Some? ==> Contains(r.value, q)
  {
    hide Contains, Braced, Run, Placeholder;
    var r := Outcome(address, Placeholder(i), levels[i]);
    if r.Some? {
      PlaceholderBraced(i);
      OutcomeIsRun(address, Placeholder(i), levels[i]);
      RunKeeps(address, Placeholder(i), levels[i], |address|, q);
    }
  }

  /** What a caller can see beforehand: filling goes on for ever if the text has the
      placeholder of a level that contains it. */
  lemma {:induction false} SelfMentionLoops(address: string, levels: seq<string>, i: nat, k: nat)
    requires i <= k < |levels| && Contains(address, Placeholder(k)) && Contains(levels[k], Placeholder(k))
    ensures Filled(address, levels, i) == None
    decreases k - i
  {
    hide Outcome, Contains, Placeholder;
    OutcomeEnds(address, Placeholder(i), levels[i]);
    if i < k {
      PlaceholderBraced(k);
      PlaceholdersDiffer(i, k);
      FilledKeeps(address, levels, i, Placeholder(k));
      var r := Outcome(address, Placeholder(i), levels[i]);
      if r.Some? {
        SelfMentionLoops(r.value, levels, i + 1, k);
      }
    }
  }

  /** And it ends if no level contains its own placeholder. */
  lemma {:induction false} NoSelfMentionFills(address: string, levels: seq<string>, i: nat)
    requires i <= |levels| && forall k | i <= k < |levels| :: !Contains(levels[k], Placeholder(k))
    ensures Filled(address, levels, i).Some?
    decreases |levels| - i
  {
    hide Outcome, Contains, Placeholder;
    if i < |levels| {
      OutcomeEnds(address, Placeholder(i), levels[i]);
      var r := Outcome(address, Placeholder(i), levels[i]);
      NoSelfMentionFills(r.value, levels, i + 1);
    }
  }

  /** The parts of a text are parts of it. */
  lemma {:induction false} LinesInside(topic: string, k: nat, q: string)
    requires k < |Lines(topic)| && Contains(Lines(topic)[k], q)
    ensures Contains(topic, q)
    decreases |topic|
  {
    NoLines();
    hide *;
    LinesFrom(topic);
    var i := Cut(topic);
    if i == |topic| {
      assert Lines(topic)[k] == topic;
    } else if k == 0 {
      InPart("", topic[..i], topic[i..], q);
      CutInTwo(topic, i);
    } else {
      LinesInside(topic[i + 1..], k - 1, q);
      InPart(topic[..i + 1], topic[i + 1..], "", q);
      CutInTwo(topic, i + 1);
    }
  }

  lemma CutInTwo(s: string, i: nat)
    requires i <= |s|
    ensures "" + s[..i] + s[i..] == s && s[..i] + s[i..] + "" == s
  {
  }

  /** Main result on templates that mention the whole topic: the call returns if and only
      if no level of the topic contains its own placeholder. */
  lemma TopicTemplateFills(template: string, topic: string)
    requires Contains(template, TOPIC)
    ensures Filled(WithTopic(template, topic), Lines(topic), 0).Some?
       <==> forall k: nat | k < |Lines(topic)| :: !Contains(Lines(topic)[k], Placeholder(k))
  {
    var text, levels := WithTopic(template, topic), Lines(topic);
    var before, after := template[..First(template, TOPIC)], template[First(template, TOPIC) + |TOPIC|..];
    assert text == before + topic + after;
    hide WithTopic, Lines, Contains, Placeholder, Filled;
    if k: nat :| k < |levels| && Contains(levels[k], Placeholder(k)) {
      LinesInside(topic, k, Placeholder(k));
      InPart(before, topic, after, Placeholder(k));
      SelfMentionLoops(text, levels, 0, k);
    } else {
      NoSelfMentionFills(text, levels, 0);
    }
  }

  /** A concrete call that does not return. */
  lemma PlaceholderTopicLoops()
    ensures Filled(WithTopic("{level0}", "{level0}"), Lines("{level0}"), 0) == None
  {
    var s := "{level0}";
    assert s[7] == '}' && forall i | 0 <= i < 8 :: s[i] != '/';
    CutAt(s, |s|);
    assert s[..|s|] == s && Lines(s) == [s];
    assert Digits(0) == "0" && Placeholder(0) == s;
    assert OccursAt(s, Placeholder(0), 0);
    NoTopicHere(s);
    SelfMentionLoops(s, [s], 0, 0);
  }

  lemma NoTopicHere(s: string)
    requires s == "{level0}"
    ensures WithTopic(s, s) == s
  {
    forall i: nat
      ensures !OccursAt(s, TOPIC, i)
    {
      if i + |TOPIC| <= |s| {
        assert i == 0 || i == 1;
        assert s[i..i + |TOPIC|][1] == s[i + 1] && TOPIC[1] == 't';
      }
    }
  }

  /** The placeholders of levels i and up, each replaced wherever it occurs. */
  ghost function AllSubstituted(address: string, levels: seq<string>, i: nat): string
    requires i <= |levels|
    decreases |levels| - i
  {
    if i == |levels| then address
    else AllSubstituted(Substituted(address, Placeholder(i), levels[i]), levels, i + 1)
  }

  /** For a topic without an opening brace filling is plain substitution, level by level. */
  lemma BracelessTopicFills(address: string, topic: string)
    requires '{' !in topic
    ensures Filled(address, Lines(topic), 0) == Some(AllSubstituted(address, Lines(topic), 0))
  {
    BracelessLines(topic);
    BracelessLevelsFill(address, Lines(topic), 0);
  }

  lemma {:induction false} BracelessLines(topic: string)
    requires '{' !in topic
    ensures forall i | 0 <= i < |Lines(topic)| :: '{' !in Lines(topic)[i]
    decreases |topic|
  {
    if topic != "" && Cut(topic) < |topic| {
      BracelessLines(topic[Cut(topic) + 1..]);
    }
  }

  lemma {:induction false} BracelessLevelsFill(address: string, levels: seq<string>, i: nat)
    requires i <= |levels| && forall k | 0 <= k < |levels| :: '{' !in levels[k]
    ensures Filled(address, levels, i) == Some(AllSubstituted(address, levels, i))
    decreases |levels| - i
  {
    if i < |levels| {
      BracelessSubstitutes(address, Placeholder(i), levels[i]);
      hide Outcome, Substituted, Placeholder;
      BracelessLevelsFill(Substituted(address, Placeholder(i), levels[i]), levels, i + 1);
    }
  }
}
