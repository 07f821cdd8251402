/**
 * CommandParser: trims a request line, splits it on runs of whitespace into
 * at most three parts and builds a SET or GET command from them.
 * CommandParseException is the Failure of a Result, carrying its message.
 */
module CommandParser {
  import opened Wrappers
  import opened JavaLang
  import opened Commands

  const BLANK_LINE := "Boş satır parse edilemez"
  const SET_FORMAT := "SET komutu formatı: SET <id> <message>"
  const GET_FORMAT := "GET komutu formatı: GET <id>"

  predicate NoSpace(s: string)
  {
    forall k :: 0 <= k < |s| ==> !IsRegexSpace(s[k])
  }

  /** A non-empty run of \s characters: one match of the delimiter \s+. */
  predicate IsSpaceRun(w: string)
  {
    w != [] && forall k :: 0 <= k < |w| ==> IsRegexSpace(w[k])
  }

  /** Index of the first \s character of s, or |s| when there is none. */
  function FirstSpace(s: string): (i: nat)
    ensures i <= |s|
  {
    if s == [] || IsRegexSpace(s[0]) then 0 else 1 + FirstSpace(s[1..])
  }

  lemma {:induction false} FirstSpaceSpec(s: string)
    ensures FirstSpace(s) < |s| ==> IsRegexSpace(s[FirstSpace(s)])
    ensures NoSpace(s[..FirstSpace(s)])
  {
    if s != [] && !IsRegexSpace(s[0]) {
      FirstSpaceSpec(s[1..]);
      assert s[..FirstSpace(s)] == [s[0]] + s[1..][..FirstSpace(s[1..])];
    }
  }

  /** Length of the run of \s characters at the front of s (greedy \s+). */
  function SpaceRun(s: string): (j: nat)
    ensures j <= |s|
    ensures j > 0 ==> IsRegexSpace(s[0])
    ensures j < |s| ==> !IsRegexSpace(s[j])
  {
    if s == [] || !IsRegexSpace(s[0]) then 0 else 1 + SpaceRun(s[1..])
  }

  /**
   * String.split("\\s+", limit) for a positive limit: at most limit parts,
   * every part but the last free of whitespace, and the last part all the
   * input beyond the last delimiter used.
   */
  function Split(s: string, limit: nat): (parts: seq<string>)
    requires limit >= 1
    ensures 1 <= |parts| <= limit
    decreases limit
  {
    var i := FirstSpace(s);
    if limit == 1 || i == |s| then
      [s]
    else
      var rest := s[i..];
      [s[..i]] + Split(rest[SpaceRun(rest)..], limit - 1)
  }

  /** Every part but the last is free of whitespace, and so is the last when the limit was not reached. */
  lemma {:induction false} SplitSpec(s: string, limit: nat)
    requires limit >= 1
    ensures forall k :: 0 <= k < |Split(s, limit)| - 1 ==> NoSpace(Split(s, limit)[k])
    ensures |Split(s, limit)| < limit ==> NoSpace(Split(s, limit)[|Split(s, limit)| - 1])
    decreases limit
  {
    FirstSpaceSpec(s);
    var i := FirstSpace(s);
    if i == |s| {
      assert s[..i] == s;
    } else if limit == 1 {
    } else {
      var rest := s[i..];
      SplitSpec(rest[SpaceRun(rest)..], limit - 1);
    }
  }

  /** What split returns after its first part, given the text that follows that part. */
  function SplitTail(rest: string, limit: nat): seq<string>
    requires limit >= 1
  {
    if rest == [] then [] else Split(rest[SpaceRun(rest)..], limit)
  }

  lemma {:induction false} FirstSpaceAfter(v: string, rest: string)
    requires NoSpace(v)
    requires rest == [] || IsRegexSpace(rest[0])
    ensures FirstSpace(v + rest) == |v|
  {
    if v == [] {
      assert v + rest == rest;
    } else {
      assert (v + rest)[0] == v[0];
      assert (v + rest)[1..] == v[1..] + rest;
      FirstSpaceAfter(v[1..], rest);
    }
  }

  /** A whitespace-free first token followed by a delimiter (or nothing) becomes the first part. */
  lemma SplitFirst(v: string, rest: string, limit: nat)
    requires limit >= 2 && NoSpace(v)
    requires rest == [] || IsRegexSpace(rest[0])
    ensures Split(v + rest, limit) == [v] + SplitTail(rest, limit - 1)
  {
    FirstSpaceAfter(v, rest);
    var s := v + rest;
    if rest == [] {
      assert s == v;
    } else {
      assert s[..|v|] == v;
      assert s[|v|..] == rest;
      assert Split(s, limit) == [s[..|v|]] + Split(rest[SpaceRun(rest)..], limit - 1);
    }
  }

  /** CommandParser.parseSetCommand, with IllegalArgumentException re-raised. */
  function ParseSet(parts: seq<string>): (r: Result<Command, string>)
    ensures r.Success? ==> r.value.SetCommand? && ValidCommand(r.value)
  {
    if |parts| < 3 then Failure(SET_FORMAT) else Rewrap(NewSetCommand(Some(parts[1]), Some(parts[2])))
  }

  /** CommandParser.parseGetCommand, with IllegalArgumentException re-raised. */
  function ParseGet(parts: seq<string>): (r: Result<Command, string>)
    ensures r.Success? ==> r.value.GetCommand? && ValidCommand(r.value)
  {
    if |parts| < 2 then Failure(GET_FORMAT) else Rewrap(NewGetCommand(Some(parts[1])))
  }

  /** The catch of IllegalArgumentException in parse: its message is prefixed. */
  function Rewrap(r: Result<Command, string>): (w: Result<Command, string>)
    ensures w.Success? <==> r.Success?
    ensures r.Success? ==> w == r
    ensures r.Failure? ==> w.error == "Komut parse hatası: " + r.error
  {
    match r
    case Success(c) => Success(c)
    case Failure(e) => Failure("Komut parse hatası: " + e)
  }

  function UnknownVerb(verb: string): string
  {
    "Bilinmeyen komut: " + verb + ". Desteklenen komutlar: SET, GET"
  }

  /** CommandParser.parse(line). */
  function Parse(line: Option<string>): (r: Result<Command, string>)
    ensures line.None? || Trim(line.value) == [] ==> r == Failure(BLANK_LINE)
    ensures r.Success? ==> ValidCommand(r.value)
  {
    if line.None? || Trim(line.value) == [] then
      Failure(BLANK_LINE)
    else
      Dispatch(Split(Trim(line.value), 3))
  }

  /** A command comes out of parse only for the verb SET or GET, in any letter case, and its kind follows the verb. */
  lemma ParsedVerb(line: string)
    requires Parse(Some(line)).Success?
    ensures Trim(line) != []
    ensures ToUpper(Split(Trim(line), 3)[0]) == (if Parse(Some(line)).value.SetCommand? then "SET" else "GET")
  {
  }

  lemma UpperVerbs()
    ensures ToUpper("SET") == "SET" && ToUpper("GET") == "GET"
  {
    assert ToUpper("SET") == [UpperChar('S')] + ToUpper("ET");
    assert ToUpper("GET") == [UpperChar('G')] + ToUpper("ET");
  }

  /** Any verb other than SET or GET, in any letter case, is rejected. */
  lemma UnknownVerbRejected(line: string)
    requires Trim(line) != []
    requires ToUpper(Split(Trim(line), 3)[0]) !in {"SET", "GET"}
    ensures Parse(Some(line)) == Failure(UnknownVerb(ToUpper(Split(Trim(line), 3)[0])))
  {
  }

  /**
   * The arity and id checks after the verb: SET needs three parts and GET two,
   * and an id token that trims to nothing is refused with the prefixed message.
   */
  lemma ParseArity(line: string)
    requires Trim(line) != []
    ensures var parts := Split(Trim(line), 3);
      var verb := ToUpper(parts[0]);
      var r := Parse(Some(line));
      && (verb == "SET" && |parts| < 3 ==> r == Failure(SET_FORMAT))
      && (verb == "GET" && |parts| < 2 ==> r == Failure(GET_FORMAT))
      && (verb == "SET" && |parts| == 3 ==>
            r == if Trim(parts[1]) == [] then Failure("Komut parse hatası: " + ID_BLANK)
                 else Success(SetCommand(Trim(parts[1]), parts[2])))
      && (verb == "GET" && |parts| >= 2 ==>
            r == if Trim(parts[1]) == [] then Failure("Komut parse hatası: " + ID_BLANK)
                 else Success(GetCommand(Trim(parts[1]))))
  {
  }

  /** line == verb + w1 + tok + w2 + msg, read as a SET request for id and msg. */
  predicate SetShape(line: string, verb: string, w1: string, tok: string, w2: string, id: string, msg: string)
  {
    && IsSpaceRun(w1) && IsSpaceRun(w2)
    && line == verb + w1 + tok + w2 + msg
    && ToUpper(verb) == "SET" && NoSpace(verb) && NoSpace(tok)
    && id == Trim(tok) && msg != [] && !IsRegexSpace(msg[0])
  }

  /**
   * A parsed SET command is the trimmed line read as verb, delimiter, id token,
   * delimiter, message: the id is the trimmed second token and the message is
   * the rest of the line, inner whitespace included.
   */
  lemma ParsedSetShape(line: string, id: string, msg: string)
    requires Parse(Some(line)) == Success(SetCommand(id, msg))
    ensures exists verb, w1, tok, w2 :: SetShape(Trim(line), verb, w1, tok, w2, id, msg)
  {
    var s := Trim(line);
    TrimSpec(line);
    var parts := Split(s, 3);
    assert Dispatch(parts) == Success(SetCommand(id, msg));
    assert |parts| == 3 && ToUpper(parts[0]) == "SET";
    assert id == Trim(parts[1]) && msg == parts[2];
    var w1, w2 := SplitThree(s);
    assert SetShape(s, parts[0], w1, parts[1], w2, id, msg);
  }

  /** A trimmed line that splits into three parts is part, delimiter, part, delimiter, last part. */
  lemma SplitThree(s: string) returns (w1: string, w2: string)
    requires s != [] && IsTrimmed(s) && |Split(s, 3)| == 3
    ensures var p := Split(s, 3);
      && IsSpaceRun(w1) && IsSpaceRun(w2)
      && s == p[0] + w1 + p[1] + w2 + p[2]
      && NoSpace(p[0]) && NoSpace(p[1])
      && p[2] != [] && !IsRegexSpace(p[2][0])
  {
    var s2;
    w1, s2 := SplitMore(s, 3);
    var s3;
    w2, s3 := SplitMore(s2, 2);
    var p := Split(s, 3);
    var q := Split(s2, 2);
    assert p[1] == q[0] && p[2] == q[1] by { assert p[1..] == q; }
    assert q[1] == s3 by { assert q[1..] == [s3]; }
    Reassociate(s, p[0], w1, s2, q[0], w2, s3);
    if s3 == [] {
      LastIsSpace(s, p[0] + w1 + p[1], w2);
    }
  }

  lemma Reassociate(s: string, a: string, w1: string, s2: string, b: string, w2: string, c: string)
    requires s == a + w1 + s2 && s2 == b + w2 + c
    ensures s == a + w1 + b + w2 + c
  {
  }

  /** When a text ends in a delimiter its last character is blank. */
  lemma LastIsSpace(s: string, u: string, w: string)
    requires IsSpaceRun(w) && s == u + w + []
    ensures !IsTrimmed(s)
  {
    assert s[|s| - 1] == w[|w| - 1];
    RegexSpaceIsTrimmable(w[|w| - 1]);
  }

  /** When split produces two or more parts, the first is followed by a delimiter and the remaining text is split with one less. */
  lemma SplitMore(s: string, limit: nat) returns (w: string, after: string)
    requires limit >= 2 && |Split(s, limit)| >= 2
    ensures && IsSpaceRun(w)
      && s == Split(s, limit)[0] + w + after
      && NoSpace(Split(s, limit)[0])
      && (after == [] || !IsRegexSpace(after[0]))
      && Split(s, limit)[1..] == Split(after, limit - 1)
  {
    SplitStep(s, limit);
    var i := FirstSpace(s);
    var rest := s[i..];
    var j := SpaceRun(rest);
    w := rest[..j];
    after := rest[j..];
  }

  /** One step of split past a delimiter: the first part, one \s+ match, and the remaining text. */
  lemma SplitStep(s: string, limit: nat)
    requires limit >= 2 && FirstSpace(s) < |s|
    ensures var i := FirstSpace(s); var rest := s[i..]; var j := SpaceRun(rest);
      && Split(s, limit) == [s[..i]] + Split(rest[j..], limit - 1)
      && NoSpace(s[..i]) && IsSpaceRun(rest[..j])
      && s == s[..i] + rest[..j] + rest[j..]
  {
    FirstSpaceSpec(s);
    var i := FirstSpace(s);
    var rest := s[i..];
    assert rest[0] == s[i];
    SpaceRunSpec(rest);
    var j := SpaceRun(rest);
    assert IsSpaceRun(rest[..j]) by {
      forall k | 0 <= k < j
        ensures IsRegexSpace(rest[..j][k])
      {
        assert rest[..j][k] == rest[k];
      }
    }
    Rejoin(s, i, j);
  }

  lemma Rejoin(s: string, i: nat, j: nat)
    requires i <= |s| && j <= |s| - i
    ensures s == s[..i] + s[i..][..j] + s[i..][j..]
  {
    assert s[i..] == s[i..][..j] + s[i..][j..];
    assert s == s[..i] + s[i..];
  }

  lemma {:induction false} SpaceRunSpec(s: string)
    ensures s != [] && IsRegexSpace(s[0]) ==> SpaceRun(s) > 0
    ensures forall k :: 0 <= k < SpaceRun(s) ==> IsRegexSpace(s[k])
  {
    if s != [] && IsRegexSpace(s[0]) {
      SpaceRunSpec(s[1..]);
      forall k | 0 <= k < SpaceRun(s)
        ensures IsRegexSpace(s[k])
      {
        if k > 0 {
          assert s[k] == s[1..][k - 1];
        }
      }
    }
  }

  /** Splitting "v w rest" where v and w are single tokens and rest does not start with a blank. */
  lemma SplitTwoTokens(v: string, w: string, rest: string, limit: nat)
    requires limit >= 3 && NoSpace(v) && NoSpace(w) && w != []
    requires rest == [] || !IsRegexSpace(rest[0])
    ensures Split(v + (" " + (w + (" " + rest))), limit) == [v] + ([w] + Split(rest, limit - 2))
  {
    var t := w + (" " + rest);
    assert t[0] == w[0] && !IsRegexSpace(w[0]);
    SplitToken(v, t, limit);
    SplitToken(w, rest, limit - 1);
    assert Split(t, limit - 1) == [w] + Split(rest, limit - 2);
  }

  /** Splitting a single token, one blank and a text that does not start with a blank. */
  lemma SplitToken(v: string, rest: string, limit: nat)
    requires limit >= 2 && NoSpace(v)
    requires rest == [] || !IsRegexSpace(rest[0])
    ensures Split(v + (" " + rest), limit) == [v] + Split(rest, limit - 1)
  {
    var r := " " + rest;
    SplitFirst(v, r, limit);
    SpaceRunOne(rest);
    assert r[SpaceRun(r)..] == rest;
  }

  lemma SpaceRunOne(s: string)
    requires s == [] || !IsRegexSpace(s[0])
    ensures SpaceRun(" " + s) == 1 && (" " + s)[1..] == s
  {
    assert (" " + s)[1..] == s;
  }

  /** On a trimmed, non-blank line, parse is the verb dispatch on split(line, 3). */
  lemma ParseTrimmed(line: string)
    requires line != [] && IsTrimmed(line)
    ensures Parse(Some(line)) == Dispatch(Split(line, 3))
  {
    TrimmedFixed(line);
  }

  /** The switch on the upper-cased verb in parse. */
  function Dispatch(parts: seq<string>): Result<Command, string>
    requires |parts| >= 1
  {
    var verb := ToUpper(parts[0]);
    if verb == "SET" then ParseSet(parts)
    else if verb == "GET" then ParseGet(parts)
    else Failure(UnknownVerb(verb))
  }

  /**
   * Round trip: "SET " + id + " " + msg parses to SetCommand(id, msg) when the
   * id is a single token without blanks and the message is non-empty with no
   * leading or trailing blanks.
   */
  lemma ParseSetRoundTrip(id: string, msg: string)
    requires id != [] && forall k :: 0 <= k < |id| ==> !IsTrimmable(id[k])
    requires msg != [] && IsTrimmed(msg)
    ensures Parse(Some("SET " + id + " " + msg)) == Success(SetCommand(id, msg))
  {
    var line := "SET" + " " + id + " " + msg;
    assert "SET" + " " == "SET ";
    NoTrimmableNoSpace(id);
    RequestSplit("SET", id, msg);
    DispatchSet(Split(line, 3), id, msg);
    RequestTrimmed("SET", id, msg);
    ParseTrimmed(line);
  }

  lemma DispatchSet(parts: seq<string>, id: string, msg: string)
    requires |parts| == 3 && parts[0] == "SET" && parts[1] == id && parts[2] == msg
    requires ValidId(id)
    ensures Dispatch(parts) == Success(SetCommand(id, msg))
  {
    UpperVerbs();
    ValidIdKept(id, msg);
  }

  lemma DispatchGet(parts: seq<string>, id: string)
    requires |parts| >= 2 && parts[0] == "GET" && parts[1] == id
    requires ValidId(id)
    ensures Dispatch(parts) == Success(GetCommand(id))
  {
    UpperVerbs();
    ValidIdKept(id, "");
  }

  /** "verb id rest" is already trimmed when the id has no blanks and rest is empty or trimmed. */
  lemma RequestTrimmed(verb: string, id: string, rest: string)
    requires |verb| == 3 && !IsTrimmable(verb[0])
    requires id != [] && forall k :: 0 <= k < |id| ==> !IsTrimmable(id[k])
    requires rest != [] && IsTrimmed(rest)
    ensures var line := verb + " " + id + " " + rest; line != [] && IsTrimmed(line)
  {
    var line := verb + " " + id + " " + rest;
    assert line[0] == verb[0];
    assert line[|line| - 1] == rest[|rest| - 1];
  }

  /** The three parts of "verb id rest". */
  lemma RequestSplit(verb: string, id: string, rest: string)
    requires NoSpace(verb) && NoSpace(id) && id != []
    requires rest == [] || !IsRegexSpace(rest[0])
    ensures var parts := Split(verb + " " + id + " " + rest, 3);
      |parts| == 3 && parts[0] == verb && parts[1] == id && parts[2] == rest
  {
    RightNested(verb, id, rest);
    SplitTwoTokens(verb, id, rest, 3);
    SplitOnce(rest);
    ThreeParts(verb, id, rest, Split(rest, 1));
  }

  lemma SplitOnce(s: string)
    ensures Split(s, 1) == [s]
  {
  }

  lemma ThreeParts(a: string, b: string, c: string, t: seq<string>)
    requires t == [c]
    ensures var p := [a] + ([b] + t); |p| == 3 && p[0] == a && p[1] == b && p[2] == c
  {
  }

  lemma RightNested(verb: string, id: string, rest: string)
    ensures verb + " " + id + " " + rest == verb + (" " + (id + (" " + rest)))
  {
  }

  lemma NoTrimmableNoSpace(s: string)
    requires forall k :: 0 <= k < |s| ==> !IsTrimmable(s[k])
    ensures NoSpace(s) && IsTrimmed(s)
  {
  }

  /** Upper-case SET and GET letters come from letters, which are never blank. */
  lemma VerbLettersNotBlank(v: string)
    requires ToUpper(v) == "SET" || ToUpper(v) == "GET"
    ensures |v| == 3 && forall k :: 0 <= k < 3 ==> !IsTrimmable(v[k])
  {
    assert |v| == 3;
    forall k | 0 <= k < 3
      ensures !IsTrimmable(v[k])
    {
      assert UpperChar(v[k]) == ToUpper(v)[k];
    }
  }

  /**
   * The verb is matched case-insensitively: on an already-trimmed line, any
   * spelling of SET or GET parses exactly like its upper-case form.
   */
  lemma VerbCaseInsensitive(v: string, rest: string)
    requires ToUpper(v) == "SET" || ToUpper(v) == "GET"
    requires rest == [] || (IsRegexSpace(rest[0]) && !IsTrimmable(rest[|rest| - 1]))
    ensures Parse(Some(v + rest)) == Parse(Some(ToUpper(v) + rest))
  {
    var u := ToUpper(v);
    UpperVerbs();
    VerbLettersNotBlank(v);
    VerbLettersNotBlank(u);
    ParseVerbRest(v, rest);
    ParseVerbRest(u, rest);
    DispatchSameVerb([v] + SplitTail(rest, 2), [u] + SplitTail(rest, 2));
  }

  /** Parsing a three-letter verb followed by a delimiter and the rest of a trimmed line. */
  lemma ParseVerbRest(v: string, rest: string)
    requires |v| == 3 && forall k :: 0 <= k < 3 ==> !IsTrimmable(v[k])
    requires rest == [] || (IsRegexSpace(rest[0]) && !IsTrimmable(rest[|rest| - 1]))
    ensures Parse(Some(v + rest)) == Dispatch([v] + SplitTail(rest, 2))
  {
    NoTrimmableNoSpace(v);
    TrimmedConcat(v, rest);
    SplitFirst(v, rest, 3);
  }

  /** Dispatch looks at the verb only through its upper-case form. */
  lemma DispatchSameVerb(p: seq<string>, q: seq<string>)
    requires |p| >= 1 && |p| == |q| && p[1..] == q[1..]
    requires ToUpper(p[0]) == ToUpper(q[0])
    ensures Dispatch(p) == Dispatch(q)
  {
    if |p| >= 2 {
      assert p[1] == p[1..][0] == q[1..][0] == q[1];
    }
    if |p| >= 3 {
      assert p[2] == p[1..][1] == q[1..][1] == q[2];
    }
  }

  lemma TrimmedConcat(v: string, rest: string)
    requires |v| == 3 && forall k :: 0 <= k < 3 ==> !IsTrimmable(v[k])
    requires rest == [] || !IsTrimmable(rest[|rest| - 1])
    ensures Trim(v + rest) == v + rest && v + rest != []
  {
    var s := v + rest;
    assert s[0] == v[0];
    assert !IsTrimmable(s[|s| - 1]);
    TrimmedFixed(s);
  }

  /** GET uses only its second token: anything after it on the line is ignored. */
  lemma GetIgnoresExtra(id: string, extra: string)
    requires id != [] && forall k :: 0 <= k < |id| ==> !IsTrimmable(id[k])
    requires extra != [] && IsTrimmed(extra)
    ensures Parse(Some("GET " + id + " " + extra)) == Success(GetCommand(id))
    ensures Parse(Some("GET " + id)) == Success(GetCommand(id))
  {
    assert "GET" + " " == "GET ";
    NoTrimmableNoSpace(id);
    var long := "GET" + " " + id + " " + extra;
    RequestSplit("GET", id, extra);
    DispatchGet(Split(long, 3), id);
    RequestTrimmed("GET", id, extra);
    ParseTrimmed(long);
    var short := "GET" + " " + id;
    ShortGetSplit(id);
    DispatchGet(Split(short, 3), id);
    assert IsTrimmed(short) by { assert short[|short| - 1] == id[|id| - 1]; }
    ParseTrimmed(short);
  }

  /** The two parts of "GET id". */
  lemma ShortGetSplit(id: string)
    requires id != [] && NoSpace(id)
    ensures var parts := Split("GET" + " " + id, 3); |parts| == 2 && parts[0] == "GET" && parts[1] == id
  {
    assert "GET" + " " + id == "GET" + (" " + id);
    SplitToken("GET", id, 3);
    FirstSpaceAfter(id, []);
    assert id + [] == id;
  }
}
