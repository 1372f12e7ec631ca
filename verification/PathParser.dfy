/** Splitting a path like "0:/dir/file" into its drive and its parts. */
module PathParser {
  import opened Status

  const MAX_PATH: nat := 128

  predicate IsDigit(c: char) { '0' <= c <= '9' }

  /** A drive digit followed by ":/"; the length is looked at up to a limit only. */
  predicate ValidPath(s: string) {
    (if |s| > MAX_PATH then MAX_PATH else |s|) >= 3 && IsDigit(s[0]) && s[1] == ':' && s[2] == '/'
  }

  /** Where the first part of s ends: at its first slash, or at its end. */
  function PartEnd(s: string): (n: nat)
    ensures n <= |s|
    ensures forall i | 0 <= i < n :: s[i] != '/'
    ensures n < |s| ==> s[n] == '/'
  {
    if s == [] || s[0] == '/' then 0 else 1 + PartEnd(s[1..])
  }

  /** What is left after the first part and the slash behind it. */
  function AfterPart(s: string): (rest: string)
    ensures s != [] ==> |rest| < |s|
  {
    if PartEnd(s) < |s| then s[PartEnd(s) + 1..] else []
  }

  /** The parts of the text behind the drive. */
  function Split(s: string): (parts: seq<string>)
    decreases |s|
  {
    if s == [] then [] else [s[..PartEnd(s)]] + Split(AfterPart(s))
  }

  /** The parts printed with a slash between them. */
  function Join(parts: seq<string>): string {
    if parts == [] then []
    else if |parts| == 1 then parts[0]
    else parts[0] + "/" + Join(parts[1..])
  }

  predicate NoSlash(part: string) { forall i | 0 <= i < |part| :: part[i] != '/' }

  /** The slash at the end of a path leaves no part. */
  function TrailingSlash(s: string): string {
    if s != [] && s[|s| - 1] == '/' then "/" else ""
  }

  lemma {:induction false} PartsHaveNoSlash(s: string)
    ensures forall k | 0 <= k < |Split(s)| :: NoSlash(Split(s)[k])
    decreases |s|
  {
    if s != [] {
      PartsHaveNoSlash(AfterPart(s));
    }
  }

  /** A text as its first part and what follows. */
  lemma {:induction false} Parted(s: string)
    requires s != []
    ensures Split(s) == [s[..PartEnd(s)]] + Split(AfterPart(s))
    ensures PartEnd(s) == |s| ==> s[..PartEnd(s)] == s && AfterPart(s) == []
    ensures PartEnd(s) < |s| ==> s == s[..PartEnd(s)] + ("/" + AfterPart(s))
  {
    hide PartEnd;
    var n := PartEnd(s);
    if n < |s| {
      CutAtSlash(s, n);
    }
  }

  lemma CutAtSlash(s: string, n: nat)
    requires n < |s| && s[n] == '/'
    ensures s == s[..n] + ("/" + s[n + 1..])
  {
    var r := s[..n] + ("/" + s[n + 1..]);
    assert |r| == |s|;
    assert forall i | 0 <= i < |s| :: r[i] == s[i];
  }

  lemma {:induction false} LastCharacter(s: string)
    requires s != []
    ensures PartEnd(s) == |s| ==> TrailingSlash(s) == ""
    ensures PartEnd(s) < |s| ==> TrailingSlash(s) == if AfterPart(s) == [] then "/" else TrailingSlash(AfterPart(s))
  {
    hide PartEnd;
    var n := PartEnd(s);
    if n == |s| {
      assert s[|s| - 1] != '/';
    } else if n + 1 < |s| {
      assert AfterPart(s)[|s| - n - 2] == s[|s| - 1];
    }
  }

  lemma {:induction false} JoinOfMore(first: string, rest: seq<string>)
    requires rest != []
    ensures Join([first] + rest) == first + ("/" + Join(rest))
  {
    assert ([first] + rest)[1..] == rest;
    assert first + "/" + Join(rest) == first + ("/" + Join(rest));
  }

  /** Printing the parts of a path gives its text back, up to a slash at the end. */
  lemma {:induction false} JoinOfSplit(s: string)
    ensures Join(Split(s)) + TrailingSlash(s) == s
    decreases |s|
  {
    hide PartEnd, TrailingSlash, Split, Join, AfterPart;
    NothingSplit();
    if s != [] {
      Parted(s);
      LastCharacter(s);
      AfterIsShorter(s);
      var part, rest := s[..PartEnd(s)], AfterPart(s);
      if rest == [] {
        assert Split(s) == [part];
        JoinOfOne(part);
      } else {
        JoinOfSplit(rest);
        SomethingSplit(rest);
        JoinOfMore(part, Split(rest));
        Regroup(part, Join(Split(rest)), TrailingSlash(rest));
      }
    }
  }

  lemma {:induction false} AfterIsShorter(s: string)
    requires s != []
    ensures |AfterPart(s)| < |s|
    ensures AfterPart(s) != [] ==> PartEnd(s) < |s|
  {
  }

  lemma Regroup(a: string, b: string, c: string)
    ensures a + ("/" + b) + c == a + ("/" + (b + c))
  {
  }

  lemma NothingSplit()
    ensures Split([]) == [] && Join([]) == [] && TrailingSlash([]) == []
  {
  }

  lemma {:induction false} SomethingSplit(s: string)
    requires s != []
    ensures Split(s) != []
  {
  }

  lemma JoinOfOne(part: string)
    ensures Join([part]) == part
  {
  }

  lemma {:induction false} PartEndOfPart(part: string, rest: string)
    requires NoSlash(part) && (rest == [] || rest[0] == '/')
    ensures PartEnd(part + rest) == |part|
    decreases |part|
  {
    var s := part + rest;
    if part != [] {
      assert s[0] == part[0] && s[1..] == part[1..] + rest;
      PartEndOfPart(part[1..], rest);
    } else {
      assert s == rest;
    }
  }

  /** Splitting a part without a slash, followed by nothing or by a slash and more. */
  lemma {:induction false} SplitOfOne(part: string)
    requires NoSlash(part)
    ensures Split(part) == if part == "" then [] else [part]
  {
    if part != "" {
      PartEndOfPart(part, []);
      assert part + [] == part && part[..|part|] == part;
      assert Split([]) == [];
    }
  }

  lemma {:induction false} SplitOfMore(part: string, rest: string)
    requires NoSlash(part)
    ensures Split(part + ("/" + rest)) == [part] + Split(rest)
  {
    var s := part + ("/" + rest);
    PartEndOfPart(part, "/" + rest);
    assert s[..|part|] == part && s[|part| + 1..] == rest;
  }

  /** Splitting printed parts gives them back, exactly when the last one is not empty; an empty last
      part is lost. */
  lemma {:induction false} SplitOfJoin(parts: seq<string>)
    requires parts != [] && forall k | 0 <= k < |parts| :: NoSlash(parts[k])
    ensures Split(Join(parts)) == if parts[|parts| - 1] != "" then parts else parts[..|parts| - 1]
    decreases |parts|
  {
    hide Split, Join, NoSlash;
    if |parts| == 1 {
      assert parts == [parts[0]];
      JoinOfOne(parts[0]);
      SplitOfOne(parts[0]);
    } else {
      var rest := parts[1..];
      SplitOfJoin(rest);
      assert parts == [parts[0]] + rest;
      JoinOfMore(parts[0], rest);
      SplitOfMore(parts[0], Join(rest));
      assert parts[..|parts| - 1] == [parts[0]] + rest[..|rest| - 1];
    }
  }

  /** A path as it is parsed. */
  datatype Path = Path(drive: nat, parts: seq<string>)

  function Parse(s: string): Option<Path> {
    if ValidPath(s) then Some(Path(s[0] as int - '0' as int, Split(s[3..]))) else None
  }

  /** Which paths are accepted: a digit, a colon and a slash, and any text behind them. */
  lemma AcceptedExactly(s: string)
    ensures Parse(s).Some? <==> exists d: char, rest: string :: '0' <= d <= '9' && s == [d, ':', '/'] + rest
  {
    if |s| >= 3 {
      assert s == [s[0], s[1], s[2]] + s[3..];
    }
  }

  /** ... and what is made of them: the number the digit stands for, and the parts of the text. */
  lemma {:induction false} ParseOfText(d: char, rest: string)
    requires '0' <= d <= '9'
    ensures var s := [d, ':', '/'] + rest;
            Parse(s).Some? && Parse(s).value.drive == d as int - 48 && Parse(s).value.parts == Split(rest)
  {
    var s := [d, ':', '/'] + rest;
    assert s[3..] == rest;
  }

  function Print(p: Path): string
    requires p.drive < 10
  {
    [('0' as int + p.drive) as char, ':', '/'] + Join(p.parts)
  }

  /** Parsing a printed path gives it back, exactly when its last part, if any, is not empty. */
  lemma ParseOfPrint(p: Path)
    requires p.drive < 10 && forall k | 0 <= k < |p.parts| :: NoSlash(p.parts[k])
    ensures Parse(Print(p)) == Some(p) <==> p.parts == [] || p.parts[|p.parts| - 1] != ""
  {
    var s := Print(p);
    assert s[3..] == Join(p.parts);
    if p.parts != [] {
      SplitOfJoin(p.parts);
    }
  }

  /** Printing a parsed path gives its text back, up to a slash at the end. */
  lemma PrintOfParse(s: string)
    requires ValidPath(s)
    ensures Parse(s).Some? && Parse(s).value.drive < 10
    ensures Print(Parse(s).value) + TrailingSlash(s[3..]) == s
  {
    hide Split, Join, TrailingSlash;
    var text := s[3..];
    JoinOfSplit(text);
    assert Print(Parse(s).value) == s[..3] + Join(Split(text));
    assert s == s[..3] + (Join(Split(text)) + TrailingSlash(text));
  }

  // ----- the parser

  class PathPart {
    const part: string
    var next: PathPart?

    constructor (part: string)
      ensures this.part == part && next == null
    {
      this.part := part;
      next := null;
    }
  }

  /** The nodes make one chain, in order, with these parts. */
  ghost predicate Chained(nodes: seq<PathPart>, parts: seq<string>)
    reads nodes
  {
    && |nodes| == |parts|
    && (forall i | 0 <= i < |nodes| :: nodes[i].part == parts[i])
    && (forall i {:trigger nodes[i].next} | 0 <= i < |nodes| ::
          nodes[i].next == if i + 1 < |nodes| then nodes[i + 1] else null)
    && (forall i, j | 0 <= i < j < |nodes| :: nodes[i] != nodes[j])
  }

  /** The text up to the next slash, character by character. */
  method ExtractPathPart(s: string, pos: nat) returns (res: Status, part: string, pos': nat)
    requires pos <= |s|
    ensures res == if pos == |s| then EBadPath else AllOk
    ensures res == AllOk ==> pos < pos' <= |s|
    ensures res == AllOk ==> part == s[pos..][..PartEnd(s[pos..])] && s[pos'..] == AfterPart(s[pos..])
    ensures res != AllOk ==> pos' == pos
  {
    part, pos' := [], pos;
    if pos == |s| {
      return EBadPath, part, pos;
    }
    ghost var n := PartEnd(s[pos..]);
    while pos' < |s| && s[pos'] != '/'
      invariant pos <= pos' <= pos + n && part == s[pos..pos']
    {
      part := part + [s[pos']];
      pos' := pos' + 1;
    }
    assert pos' == pos + n;
    assert s[pos..pos'] == s[pos..][..n];
    if pos' < |s| && s[pos'] == '/' {
      pos' := pos' + 1;
    }
    return AllOk, part, pos';
  }

  /** One more node behind `prev`. */
  method MakePathPart(prev: PathPart?, s: string, pos: nat) returns (res: Status, node: PathPart?, pos': nat)
    requires pos <= |s|
    modifies prev
    ensures res == if pos == |s| then EBadPath else AllOk
    ensures res == AllOk ==> node != null && fresh(node) && node.next == null
    ensures res == AllOk ==> node.part == s[pos..][..PartEnd(s[pos..])]
    ensures res == AllOk ==> pos < pos' <= |s| && s[pos'..] == AfterPart(s[pos..])
    ensures res == AllOk && prev != null ==> prev.next == node
    ensures res != AllOk ==> pos' == pos && (prev != null ==> prev.next == old(prev.next))
  {
    var part;
    res, part, pos' := ExtractPathPart(s, pos);
    if res != AllOk {
      return res, null, pos';
    }
    node := new PathPart(part);
    if prev != null {
      prev.next := node;
    }
  }

  /** One more part of the text. */
  lemma SplitFrom(s: string, from: nat, pos: nat, done: seq<string>)
    requires from < pos <= |s| && s[pos..] == AfterPart(s[from..])
    ensures done + [s[from..][..PartEnd(s[from..])]] + Split(s[pos..]) == done + Split(s[from..])
  {
    var part := s[from..][..PartEnd(s[from..])];
    assert Split(s[from..]) == [part] + Split(s[pos..]);
    assert done + ([part] + Split(s[pos..])) == done + [part] + Split(s[pos..]);
  }

  method ParsePath(s: string) returns (res: Status, drive: nat, parts: PathPart?, ghost nodes: seq<PathPart>)
    ensures res == if ValidPath(s) then AllOk else EBadPath
    ensures res == AllOk ==> Parse(s).Some? && drive == Parse(s).value.drive
    ensures res == AllOk ==> fresh(nodes) && Chained(nodes, Parse(s).value.parts)
    ensures res == AllOk ==> parts == if nodes == [] then null else nodes[0]
  {
    hide Split, AfterPart, PartEnd;
    drive, parts, nodes := 0, null, [];
    if !ValidPath(s) {
      return EBadPath, drive, parts, nodes;
    }
    drive := s[0] as int - '0' as int;
    var pos := 3;
    NothingSplit();
    if pos < |s| {
      res, parts, pos := MakePathPart(null, s, pos);
      nodes := [parts];
      var next := parts;
      ghost var done := [s[3..][..PartEnd(s[3..])]];
      SplitFrom(s, 3, pos, []);
      assert [] + done == done && [] + Split(s[3..]) == Split(s[3..]);
      while res == AllOk
        invariant 3 <= pos <= |s| && nodes != [] && fresh(nodes) && nodes[0] == parts
        invariant res == AllOk ==> next == nodes[|nodes| - 1]
        invariant Chained(nodes, done) && done + Split(s[pos..]) == Split(s[3..])
        invariant res != AllOk ==> pos == |s|
        decreases |s| - pos, if res == AllOk then 1 else 0
      {
        var node;
        ghost var from := pos;
        res, node, pos := MakePathPart(next, s, pos);
        if res == AllOk {
          SplitFrom(s, from, pos, done);
          nodes, done := nodes + [node], done + [s[from..][..PartEnd(s[from..])]];
          next := node;
        }
      }
      assert done + [] == done;
    }
    return AllOk, drive, parts, nodes;
  }
}
