/** Splitting text at slashes with std::getline, and joining it again. */
module GetLine {

  predicate NoSlash(s: string) {
    '/' !in s
  }

  /** The end of the first part: the first slash, or the end of the text. */
  function Cut(s: string): (i: nat)
    ensures i <= |s| && NoSlash(s[..i]) && (i < |s| ==> s[i] == '/')
  {
    if s == "" || s[0] == '/' then 0
    else
      assert s[..1 + Cut(s[1..])] == [s[0]] + s[1..][..Cut(s[1..])];
      1 + Cut(s[1..])
  }

  /** The parts std::getline yields: an empty part after the last slash is not one. */
  function Lines(s: string): seq<string>
    decreases |s|
  {
    if s == "" then []
    else if Cut(s) == |s| then [s]
    else [s[..Cut(s)]] + Lines(s[Cut(s) + 1..])
  }

  function Join(parts: seq<string>): string {
    if parts == [] then "" else if |parts| == 1 then parts[0] else parts[0] + "/" + Join(parts[1..])
  }

  predicate SlashFree(parts: seq<string>) {
    forall i | 0 <= i < |parts| :: NoSlash(parts[i])
  }

  method Split(topic: string) returns (parts: seq<string>)
    ensures parts == Lines(topic)
  {
    NoLines();
    hide Lines, NoSlash;
    parts := [];
    var pos := 0;
    assert topic[0..] == topic;
    while pos < |topic|
      invariant 0 <= pos <= |topic|
      invariant Lines(topic) == parts + Lines(topic[pos..])
    {
      var end := pos;
      while end < |topic| && topic[end] != '/'
        invariant pos <= end <= |topic| && forall i | pos <= i < end :: topic[i] != '/'
      {
        end := end + 1;
      }
      NextPart(topic, pos, end);
      TakesPart(parts, topic[pos..end], Lines(topic[if end < |topic| then end + 1 else end..]));
      parts := parts + [topic[pos..end]];
      pos := if end < |topic| then end + 1 else end;
    }
    assert topic[pos..] == "";
  }

  lemma NoLines()
    ensures Lines("") == []
  {
  }

  lemma TakesPart(parts: seq<string>, part: string, rest: seq<string>)
    ensures parts + ([part] + rest) == (parts + [part]) + rest
  {
  }

  lemma LinesFrom(s: string)
    requires s != ""
    ensures Lines(s) == if Cut(s) == |s| then [s] else [s[..Cut(s)]] + Lines(s[Cut(s) + 1..])
  {
    hide Cut;
  }

  /** The first part ends at the first slash, or at the end of the text. */
  lemma PartOf(s: string, i: nat)
    requires s != "" && i <= |s| && NoSlash(s[..i]) && (i < |s| ==> s[i] == '/')
    ensures Lines(s) == [s[..i]] + Lines(s[if i < |s| then i + 1 else i..])
  {
    CutAt(s, i);
    LinesFrom(s);
    if i == |s| {
      WholeIsPart(s);
    }
    hide Lines, Cut, NoSlash;
  }

  lemma WholeIsPart(s: string)
    ensures s[..|s|] == s && Lines(s[|s|..]) == []
  {
    NoLines();
    assert s[|s|..] == "";
  }

  lemma SlicesFrom(s: string, pos: nat, end: nat)
    requires pos <= end <= |s| && forall i | pos <= i < end :: s[i] != '/'
    ensures s[pos..][..end - pos] == s[pos..end] && NoSlash(s[pos..end])
    ensures s[pos..][end - pos..] == s[end..] && (end < |s| ==> s[pos..][end - pos + 1..] == s[end + 1..])
  {
  }

  /** The part that starts at pos ends at the next slash, or at the end of the text. */
  lemma NextPart(s: string, pos: nat, end: nat)
    requires pos <= end <= |s| && pos < |s| && (forall i | pos <= i < end :: s[i] != '/')
    requires end < |s| ==> s[end] == '/'
    ensures Lines(s[pos..]) == [s[pos..end]] + Lines(s[if end < |s| then end + 1 else end..])
  {
    hide *;
    SlicesFrom(s, pos, end);
    PartOf(s[pos..], end - pos);
  }

  lemma {:induction false} CutAt(s: string, i: nat)
    requires i <= |s| && NoSlash(s[..i]) && (i < |s| ==> s[i] == '/')
    ensures Cut(s) == i
    decreases i
  {
    if i > 0 {
      assert s[0] in s[..i] && s[1..][..i - 1] == s[..i][1..];
      CutAt(s[1..], i - 1);
    }
  }

  lemma {:induction false} LinesSlashFree(s: string)
    ensures SlashFree(Lines(s))
    decreases |s|
  {
    if s != "" && Cut(s) < |s| {
      LinesSlashFree(s[Cut(s) + 1..]);
    } else if s != "" {
      assert s[..Cut(s)] == s;
    }
  }

  /** A slash-free first part followed by a slash is split off. */
  lemma FirstPart(part: string, rest: string)
    requires NoSlash(part)
    ensures Lines(part + "/" + rest) == [part] + Lines(rest)
  {
    var s := part + "/" + rest;
    assert s[..|part|] == part && s[|part|] == '/' && s[|part| + 1..] == rest;
    CutAt(s, |part|);
  }

  lemma {:induction false} LinesOfJoin(parts: seq<string>)
    requires parts != [] && SlashFree(parts) && parts[|parts| - 1] != ""
    ensures Lines(Join(parts)) == parts
    decreases |parts|
  {
    if |parts| == 1 {
      assert parts[0][..|parts[0]|] == parts[0];
      CutAt(parts[0], |parts[0]|);
    } else {
      LinesOfJoin(parts[1..]);
      FirstPart(parts[0], Join(parts[1..]));
    }
  }

  lemma Regroup(a: string, b: string)
    ensures a + "/" + (b + "/") == a + "/" + b + "/"
  {
  }

  /** A final slash adds no part. */
  lemma {:induction false} LinesOfTerminated(parts: seq<string>)
    requires parts != [] && SlashFree(parts)
    ensures Lines(Join(parts) + "/") == parts
    decreases |parts|
  {
    if |parts| == 1 {
      FirstPart(parts[0], "");
      assert parts[0] + "/" + "" == Join(parts) + "/";
    } else {
      var rest := Join(parts[1..]);
      LinesOfTerminated(parts[1..]);
      FirstPart(parts[0], rest + "/");
      Regroup(parts[0], rest);
    }
  }

  predicate EndsWithSlash(s: string) {
    s != "" && s[|s| - 1] == '/'
  }

  /** Joining the parts gives the text back, unless it ends with a slash. */
  lemma {:induction false} JoinOfLines(s: string)
    requires s != "" && !EndsWithSlash(s)
    ensures Join(Lines(s)) == s && Lines(s) != [] && Lines(s)[|Lines(s)| - 1] != ""
    decreases |s|
  {
    var i := Cut(s);
    if i == |s| {
      assert s[..i] == s;
    } else {
      var rest := s[i + 1..];
      SplitAt(s, i);
      hide Lines, Join, NoSlash;
      JoinOfLines(rest);
      JoinMore(s[..i], Lines(rest));
    }
  }

  lemma SplitAt(s: string, i: nat)
    requires i == Cut(s) < |s| && !EndsWithSlash(s)
    ensures s == s[..i] + "/" + s[i + 1..] && s[i + 1..] != "" && !EndsWithSlash(s[i + 1..])
    ensures Lines(s) == [s[..i]] + Lines(s[i + 1..])
  {
    SplitText(s, i);
    hide Cut, EndsWithSlash, NoSlash;
  }

  lemma SplitText(s: string, i: nat)
    requires i < |s| && s[i] == '/' && !EndsWithSlash(s)
    ensures s == s[..i] + "/" + s[i + 1..] && s[i + 1..] != "" && !EndsWithSlash(s[i + 1..])
  {
    assert i != |s| - 1;
    assert s[i + 1..][|s| - i - 2] == s[|s| - 1];
  }

  lemma {:induction false} LastCharacter(parts: seq<string>)
    requires parts != [] && SlashFree(parts) && parts[|parts| - 1] != ""
    ensures Join(parts) != "" && !EndsWithSlash(Join(parts))
    decreases |parts|
  {
    if |parts| == 1 {
      assert parts[0][|parts[0]| - 1] in parts[0];
    } else {
      LastCharacter(parts[1..]);
      var rest := Join(parts[1..]);
      assert Join(parts)[|Join(parts)| - 1] == rest[|rest| - 1];
    }
  }

  lemma JoinMore(a: string, rest: seq<string>)
    requires rest != []
    ensures Join([a] + rest) == a + "/" + Join(rest)
  {
    assert ([a] + rest)[1..] == rest;
  }
}
