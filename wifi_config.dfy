/** The part of the Wi-Fi setup service that rewrites the supplicant
    configuration: find the `network={ ... }` block that mentions an SSID and
    replace it with a fresh four-line block, or append the block at the end.
    Also the clean-up applied to the SSIDs a scan reports. */
module WifiConfig {
  import opened Wrappers
  import opened Text

  /** The four lines written for a network, each ending in a line feed. */
  function NetworkBlock(ssid: string, psk: string): (b: seq<string>)
    ensures |b| == 4
    ensures b[0] == "network={\n" && b[3] == "}\n"
    ensures b[1] == "    ssid=\"" + ssid + "\"\n" && b[2] == "    psk=\"" + psk + "\"\n"
  {
    ["network={\n", "    ssid=\"" + ssid + "\"\n", "    psk=\"" + psk + "\"\n", "}\n"]
  }

  /** The text whose presence marks a line as mentioning the SSID. */
  function SsidPattern(ssid: string): (p: string)
    ensures |p| == |ssid| + 7 && p[0] == 's'
  {
    "ssid=\"" + ssid + "\""
  }

  /** The stripped line starts with `network={`. */
  predicate IsBlockStart(line: string)
  {
    StartsWith(Strip(line), "network={")
  }

  /** The stripped line starts with `}`. */
  predicate IsBlockEnd(line: string)
  {
    StartsWith(Strip(line), "}")
  }

  /** The stripped line is empty. */
  predicate IsBlank(line: string)
  {
    Strip(line) == ""
  }

  /** What the three line tests mean: leading whitespace is skipped and
      trailing whitespace cannot matter, and a blank line is whitespace only. */
  lemma LinePredicates(line: string)
    ensures IsBlockStart(line) <==> StartsWith(StripLeft(line), "network={")
    ensures IsBlockEnd(line) <==> StartsWith(StripLeft(line), "}")
    ensures IsBlank(line) <==> forall k :: 0 <= k < |line| ==> IsSpace(line[k])
  {
    StartsWithStripRight(StripLeft(line), "network={");
    StartsWithStripRight(StripLeft(line), "}");
    StripRemovesSpaces(line);
    if Strip(line) != "" {
      var k := |line| - |StripLeft(line)|;
      assert line[k] == Strip(line)[0];
    }
  }

  // ---------------------------------------------------------------------
  // What the search finds, as functions characterised by their contracts
  // ---------------------------------------------------------------------

  /** The index of the first line containing the pattern. */
  function FirstMatch(lines: seq<string>, pattern: string): (r: Option<nat>)
    ensures r.None? <==> forall k :: 0 <= k < |lines| ==> !Contains(lines[k], pattern)
    ensures r.Some? ==> r.value < |lines| && Contains(lines[r.value], pattern)
    ensures r.Some? ==> forall k :: 0 <= k < r.value ==> !Contains(lines[k], pattern)
  {
    if lines == [] then None
    else if Contains(lines[0], pattern) then Some(0)
    else match FirstMatch(lines[1..], pattern)
      case None => None
      case Some(k) => Some(k + 1)
  }

  /** The greatest j <= i whose line opens a block. */
  function LastStartAtOrBefore(lines: seq<string>, i: nat): (r: Option<nat>)
    requires i < |lines|
    ensures r.None? <==> forall k :: 0 <= k <= i ==> !IsBlockStart(lines[k])
    ensures r.Some? ==> r.value <= i && IsBlockStart(lines[r.value])
    ensures r.Some? ==> forall k :: r.value < k <= i ==> !IsBlockStart(lines[k])
  {
    if IsBlockStart(lines[i]) then Some(i)
    else if i == 0 then None
    else LastStartAtOrBefore(lines, i - 1)
  }

  /** The least j >= i whose line closes a block. */
  function FirstEndFrom(lines: seq<string>, i: nat): (r: Option<nat>)
    requires i <= |lines|
    ensures r.None? <==> forall k :: i <= k < |lines| ==> !IsBlockEnd(lines[k])
    ensures r.Some? ==> i <= r.value < |lines| && IsBlockEnd(lines[r.value])
    ensures r.Some? ==> forall k :: i <= k < r.value ==> !IsBlockEnd(lines[k])
    decreases |lines| - i
  {
    if i == |lines| then None
    else if IsBlockEnd(lines[i]) then Some(i)
    else FirstEndFrom(lines, i + 1)
  }

  /** The characterisations pin the searches down: an index with the
      defining property is the one each search returns. */
  lemma FirstMatchIs(lines: seq<string>, pattern: string, i: nat)
    requires i < |lines| && Contains(lines[i], pattern)
    requires forall k :: 0 <= k < i ==> !Contains(lines[k], pattern)
    ensures FirstMatch(lines, pattern) == Some(i)
  {
  }

  lemma LastStartIs(lines: seq<string>, i: nat, s: nat)
    requires i < |lines| && s <= i && IsBlockStart(lines[s])
    requires forall k :: s < k <= i ==> !IsBlockStart(lines[k])
    ensures LastStartAtOrBefore(lines, i) == Some(s)
  {
  }

  lemma FirstEndIs(lines: seq<string>, i: nat, t: nat)
    requires i <= t < |lines| && IsBlockEnd(lines[t])
    requires forall k :: i <= k < t ==> !IsBlockEnd(lines[k])
    ensures FirstEndFrom(lines, i) == Some(t)
  {
  }

  /** The block boundaries the search reports: both absent when no line
      mentions the SSID, otherwise the nearest opening line at or above the
      first mention and the nearest closing line at or below it. */
  function Located(lines: seq<string>, ssid: string): (Option<nat>, Option<nat>)
  {
    match FirstMatch(lines, SsidPattern(ssid))
    case None => (None, None)
    case Some(i) => (LastStartAtOrBefore(lines, i), FirstEndFrom(lines, i))
  }

  /** A reported opening line opens a block, a reported closing line closes
      one, the opening comes first, and both lie around the first line that
      mentions the SSID; nothing is reported unless some line mentions it. */
  lemma LocatedFacts(lines: seq<string>, ssid: string)
    ensures var (s, t) := Located(lines, ssid);
      && (s.Some? ==> s.value < |lines| && IsBlockStart(lines[s.value]))
      && (t.Some? ==> t.value < |lines| && IsBlockEnd(lines[t.value]))
      && (s.Some? && t.Some? ==> s.value <= t.value)
      && ((s.Some? || t.Some?) ==> exists i :: IsFirstMention(lines, ssid, i))
      && (forall i :: IsFirstMention(lines, ssid, i) ==>
            (s.Some? ==> s.value <= i) && (t.Some? ==> i <= t.value))
  {
    match FirstMatch(lines, SsidPattern(ssid))
    case None =>
      assert forall i :: !IsFirstMention(lines, ssid, i);
    case Some(i) =>
      assert IsFirstMention(lines, ssid, i);
      assert forall i' :: IsFirstMention(lines, ssid, i') ==> i' == i;
  }

  /** What the rewrite does: replace lines start..end, or append. */
  datatype Edit = Replace(start: nat, end: nat) | Append

  function PlanEdit(lines: seq<string>, ssid: string): (e: Edit)
    ensures e.Replace? ==> e.start <= e.end < |lines|
  {
    match Located(lines, ssid)
    case (Some(s), Some(t)) => Replace(s, t)
    case _ => Append
  }

  /** The configuration after the rewrite. */
  function Rewrite(lines: seq<string>, ssid: string, psk: string): seq<string>
  {
    match PlanEdit(lines, ssid)
    case Replace(s, t) => lines[..s] + NetworkBlock(ssid, psk) + lines[t + 1..]
    case Append =>
      (if lines == [] || !IsBlank(lines[|lines| - 1]) then lines + ["\n"] else lines)
        + NetworkBlock(ssid, psk)
  }

  // ---------------------------------------------------------------------
  // The rewrite as the service performs it
  // ---------------------------------------------------------------------

  /** Scan upwards from line i for the line opening a block. */
  method FindBlockStart(confLines: seq<string>, i: nat) returns (startIdx: Option<nat>)
    requires i < |confLines|
    ensures startIdx == LastStartAtOrBefore(confLines, i)
  {
    startIdx := None;
    var j: int := i;
    while j >= 0
      invariant -1 <= j <= i
      invariant startIdx == None
      invariant forall k :: j < k <= i ==> !IsBlockStart(confLines[k])
    {
      if IsBlockStart(confLines[j]) {
        startIdx := Some(j);
        break;
      }
      j := j - 1;
    }
  }

  /** Scan downwards from line i for the line closing a block. */
  method FindBlockEnd(confLines: seq<string>, i: nat) returns (endIdx: Option<nat>)
    requires i < |confLines|
    ensures endIdx == FirstEndFrom(confLines, i)
  {
    endIdx := None;
    for j := i to |confLines|
      invariant endIdx == None
      invariant forall k :: i <= k < j ==> !IsBlockEnd(confLines[k])
    {
      if IsBlockEnd(confLines[j]) {
        endIdx := Some(j);
        break;
      }
    }
  }

  /** Find the first line mentioning the SSID, then the block around it. */
  method LocateBlock(confLines: seq<string>, ssid: string)
    returns (startIdx: Option<nat>, endIdx: Option<nat>)
    ensures (startIdx, endIdx) == Located(confLines, ssid)
  {
    var pattern := SsidPattern(ssid);
    startIdx, endIdx := None, None;
    var i := 0;
    while i < |confLines|
      invariant 0 <= i <= |confLines|
      invariant forall k :: 0 <= k < i ==> !Contains(confLines[k], pattern)
      invariant startIdx == None && endIdx == None
    {
      if Contains(confLines[i], pattern) {
        startIdx := FindBlockStart(confLines, i);
        endIdx := FindBlockEnd(confLines, i);
        FirstMatchIs(confLines, pattern, i);
        return;
      }
      i := i + 1;
    }
  }

  /** Search the configuration for the SSID's block, then replace it in place
      or append a new one. */
  method UpdateNetworkConfig(lines: seq<string>, ssid: string, psk: string)
    returns (confLines: seq<string>)
    ensures confLines == Rewrite(lines, ssid, psk)
  {
    confLines := lines;
    var newBlock := NetworkBlock(ssid, psk);
    var startIdx, endIdx := LocateBlock(confLines, ssid);
    if startIdx.Some? && endIdx.Some? {
      RewriteOfReplace(lines, ssid, psk, startIdx.value, endIdx.value);
      confLines := confLines[..startIdx.value] + newBlock + confLines[endIdx.value + 1..];
      assert confLines == Rewrite(lines, ssid, psk);
    } else {
      RewriteOfAppend(lines, ssid, psk);
      if confLines == [] || !IsBlank(confLines[|confLines| - 1]) {
        confLines := confLines + ["\n"];
      }
      confLines := confLines + newBlock;
      assert confLines == Rewrite(lines, ssid, psk);
    }
  }

  // ---------------------------------------------------------------------
  // Properties of the rewrite
  // ---------------------------------------------------------------------

  /** The first line that mentions the SSID. */
  predicate IsFirstMention(lines: seq<string>, ssid: string, i: int)
  {
    0 <= i < |lines| && Contains(lines[i], SsidPattern(ssid))
    && forall k :: 0 <= k < i ==> !Contains(lines[k], SsidPattern(ssid))
  }

  /** The boundaries the search reports around the first mention. */
  lemma LocatedIs(lines: seq<string>, ssid: string, i: nat, s: nat, t: nat)
    requires IsFirstMention(lines, ssid, i)
    requires s <= i && IsBlockStart(lines[s])
    requires forall k :: s < k <= i ==> !IsBlockStart(lines[k])
    requires i <= t < |lines| && IsBlockEnd(lines[t])
    requires forall k :: i <= k < t ==> !IsBlockEnd(lines[k])
    ensures Located(lines, ssid) == (Some(s), Some(t))
  {
    FirstMatchIs(lines, SsidPattern(ssid), i);
    LastStartIs(lines, i, s);
    FirstEndIs(lines, i, t);
  }

  /** Once the plan is a replacement, the rewrite is that replacement. */
  lemma RewriteOfReplace(lines: seq<string>, ssid: string, psk: string, s: nat, t: nat)
    requires Located(lines, ssid) == (Some(s), Some(t))
    ensures PlanEdit(lines, ssid) == Replace(s, t)
    ensures s <= t < |lines|
    ensures Rewrite(lines, ssid, psk) == lines[..s] + NetworkBlock(ssid, psk) + lines[t + 1..]
  {
    var e := PlanEdit(lines, ssid);
    assert e == Replace(s, t);
    assert e.start <= e.end < |lines|;
  }

  /** Without both boundaries, the rewrite appends. */
  lemma RewriteOfAppend(lines: seq<string>, ssid: string, psk: string)
    requires Located(lines, ssid).0.None? || Located(lines, ssid).1.None?
    ensures PlanEdit(lines, ssid) == Append
    ensures Rewrite(lines, ssid, psk)
         == (if lines == [] || !IsBlank(lines[|lines| - 1]) then lines + ["\n"] else lines)
          + NetworkBlock(ssid, psk)
  {
    var e := PlanEdit(lines, ssid);
    assert e == Append;
  }

  /** Replace case: when the first mention has an opening line at or above it
      and a closing line at or below it, exactly the lines from the nearest
      such opening line to the nearest such closing line give way to the
      four-line block. */
  lemma RewriteReplaces(lines: seq<string>, ssid: string, psk: string, i: nat, s: nat, t: nat)
    requires IsFirstMention(lines, ssid, i)
    requires s <= i && IsBlockStart(lines[s])
    requires forall k :: s < k <= i ==> !IsBlockStart(lines[k])
    requires i <= t < |lines| && IsBlockEnd(lines[t])
    requires forall k :: i <= k < t ==> !IsBlockEnd(lines[k])
    ensures Rewrite(lines, ssid, psk) == lines[..s] + NetworkBlock(ssid, psk) + lines[t + 1..]
    ensures |Rewrite(lines, ssid, psk)| == |lines| - (t - s + 1) + 4
  {
    LocatedIs(lines, ssid, i, s, t);
    RewriteOfReplace(lines, ssid, psk, s, t);
  }

  /** Append case: when the search finds no complete block, the old lines are
      kept as a prefix, one empty line separates them from the new block
      exactly when the file is empty or does not already end in a blank line,
      and the block comes last. */
  lemma RewriteAppends(lines: seq<string>, ssid: string, psk: string)
    requires Located(lines, ssid).0.None? || Located(lines, ssid).1.None?
    ensures var r := Rewrite(lines, ssid, psk);
      var sep := lines == [] || !IsBlank(lines[|lines| - 1]);
      && r[..|lines|] == lines
      && r[|r| - 4..] == NetworkBlock(ssid, psk)
      && |r| == |lines| + (if sep then 5 else 4)
      && (sep ==> r[|lines|] == "\n")
  {
  }

  /** When no line mentions the SSID, the rewrite appends. */
  lemma UnknownSsidAppends(lines: seq<string>, ssid: string, psk: string)
    requires forall k :: 0 <= k < |lines| ==> !Contains(lines[k], SsidPattern(ssid))
    ensures PlanEdit(lines, ssid) == Append
    ensures |Rewrite(lines, ssid, psk)| >= |lines| + 4
  {
  }

  /** The anchor of the first mention always lies inside the replaced range. */
  lemma ReplacedRangeHoldsMention(lines: seq<string>, ssid: string)
    requires PlanEdit(lines, ssid).Replace?
    ensures exists i :: (PlanEdit(lines, ssid).start <= i <= PlanEdit(lines, ssid).end
      && IsFirstMention(lines, ssid, i))
  {
    var i := FirstMatch(lines, SsidPattern(ssid)).value;
    assert IsFirstMention(lines, ssid, i);
  }

  // Facts about the lines of a freshly written block.

  lemma BlockLineFacts(ssid: string, psk: string)
    ensures var b := NetworkBlock(ssid, psk);
      && IsBlockStart(b[0]) && !IsBlockEnd(b[0]) && !Contains(b[0], SsidPattern(ssid))
      && !IsBlockStart(b[1]) && !IsBlockEnd(b[1]) && Contains(b[1], SsidPattern(ssid))
      && !IsBlockStart(b[2]) && !IsBlockEnd(b[2])
      && IsBlockEnd(b[3])
  {
    var b := NetworkBlock(ssid, psk);
    HeaderLineFacts(b[0], SsidPattern(ssid));
    SsidLineFacts(b[1], ssid);
    PskLineFacts(b[2], psk);
    CloseLineFacts(b[3]);
  }

  lemma HeaderLineFacts(line: string, p: string)
    requires line == "network={\n" && p != [] && p[0] == 's'
    ensures IsBlockStart(line) && !IsBlockEnd(line) && !Contains(line, p)
  {
    assert StripLeft(line) == line;
    assert StripRight(line) == "network={";
    NotContainsWithout(line, p);
  }

  lemma SsidLineFacts(line: string, ssid: string)
    requires line == "    ssid=\"" + ssid + "\"\n"
    ensures !IsBlockStart(line) && !IsBlockEnd(line) && Contains(line, SsidPattern(ssid))
  {
    var p := SsidPattern(ssid);
    assert line == "    " + p + "\n";
    ContainsInfix("    ", p, "\n");
    StripStartsWithFirst("    ", line, 's');
  }

  lemma PskLineFacts(line: string, psk: string)
    requires line == "    psk=\"" + psk + "\"\n"
    ensures !IsBlockStart(line) && !IsBlockEnd(line)
  {
    StripStartsWithFirst("    ", line, 'p');
  }

  lemma CloseLineFacts(line: string)
    requires line == "}\n"
    ensures IsBlockEnd(line)
  {
    assert StripLeft(line) == line;
    assert StripRight(line) == "}";
  }

  /** Stripping a line made of some spaces followed by a non-space character
      gives a string starting with that character. */
  lemma StripStartsWithFirst(spaces: string, line: string, c: char)
    requires forall k :: 0 <= k < |spaces| ==> IsSpace(spaces[k])
    requires |spaces| < |line| && line[..|spaces|] == spaces && line[|spaces|] == c && !IsSpace(c)
    ensures Strip(line) != [] && Strip(line)[0] == c
  {
    StripLeftSkips(spaces, line);
    var l := StripLeft(line);
    assert l[0] == c;
    StripRightRemovesSpaces(l);
  }

  lemma {:induction false} StripLeftSkips(spaces: string, line: string)
    requires forall k :: 0 <= k < |spaces| ==> IsSpace(spaces[k])
    requires |spaces| < |line| && line[..|spaces|] == spaces && !IsSpace(line[|spaces|])
    ensures StripLeft(line) == line[|spaces|..]
    decreases |spaces|
  {
    if spaces != [] {
      assert IsSpace(line[0]);
      StripLeftSkips(spaces[1..], line[1..]);
      assert line[1..][|spaces| - 1..] == line[|spaces|..];
    } else {
      assert !IsSpace(line[0]);
    }
  }

  /** A block written by the rewrite is found again at the same place. */
  lemma {:induction false} LocatesWrittenBlock(pre: seq<string>, ssid: string, psk: string, post: seq<string>)
    requires forall k :: 0 <= k < |pre| ==> !Contains(pre[k], SsidPattern(ssid))
    ensures var lines := pre + NetworkBlock(ssid, psk) + post;
      Located(lines, ssid) == (Some(|pre|), Some(|pre| + 3))
  {
    var b := NetworkBlock(ssid, psk);
    var lines := pre + b + post;
    forall k | 0 <= k < 4
      ensures lines[|pre| + k] == b[k]
    {
      ConcatIndex(pre, b, post, |pre| + k);
    }
    forall k | 0 <= k < |pre|
      ensures !Contains(lines[k], SsidPattern(ssid))
    {
      ConcatIndex(pre, b, post, k);
    }
    BlockFoundAt(lines, ssid, psk, |pre|);
  }

  /** Lines holding the written block at index a, with no mention of the SSID
      before it, are located at exactly that block. */
  lemma BlockFoundAt(lines: seq<string>, ssid: string, psk: string, a: nat)
    requires a + 4 <= |lines|
    requires forall k :: 0 <= k < 4 ==> lines[a + k] == NetworkBlock(ssid, psk)[k]
    requires forall k :: 0 <= k < a ==> !Contains(lines[k], SsidPattern(ssid))
    ensures Located(lines, ssid) == (Some(a), Some(a + 3))
  {
    var b := NetworkBlock(ssid, psk);
    var p := SsidPattern(ssid);
    BlockLineFacts(ssid, psk);
    assert lines[a] == b[0] && lines[a + 1] == b[1] && lines[a + 2] == b[2] && lines[a + 3] == b[3] by {
      assert lines[a + 0] == b[0];
    }
    assert IsFirstMention(lines, ssid, a + 1);
    FirstMatchIs(lines, p, a + 1);
    assert IsBlockStart(lines[a]) && !IsBlockStart(lines[a + 1]);
    assert forall k :: a < k <= a + 1 ==> !IsBlockStart(lines[k]) by {
      forall k | a < k <= a + 1
        ensures !IsBlockStart(lines[k])
      {
        assert k == a + 1;
      }
    }
    LastStartIs(lines, a + 1, a);
    assert !IsBlockEnd(lines[a + 1]) && !IsBlockEnd(lines[a + 2]) && IsBlockEnd(lines[a + 3]);
    assert forall k :: a + 1 <= k < a + 3 ==> !IsBlockEnd(lines[k]) by {
      forall k | a + 1 <= k < a + 3
        ensures !IsBlockEnd(lines[k])
      {
        assert k == a + 1 || k == a + 2;
      }
    }
    FirstEndIs(lines, a + 1, a + 3);
    assert FirstMatch(lines, p) == Some(a + 1);
  }


  /** Writing the same network twice changes nothing the second time when
      the first write replaced a complete block. */
  lemma RewriteStableAfterReplace(lines: seq<string>, ssid: string, psk: string)
    requires PlanEdit(lines, ssid).Replace?
    ensures Rewrite(Rewrite(lines, ssid, psk), ssid, psk) == Rewrite(lines, ssid, psk)
  {
    ReplacePlanFacts(lines, ssid);
    var e := PlanEdit(lines, ssid);
    var s, t := e.start, e.end;
    assert Located(lines, ssid) == (Some(s), Some(t));
    RewriteOfReplace(lines, ssid, psk, s, t);
    var pre, post := lines[..s], lines[t + 1..];
    assert Rewrite(lines, ssid, psk) == pre + NetworkBlock(ssid, psk) + post;
    forall k | 0 <= k < |pre|
      ensures !Contains(pre[k], SsidPattern(ssid))
    {
      assert pre[k] == lines[k];
    }
    StableWhenWrittenAt(lines, ssid, psk, pre, post);
  }

  /** A rewrite that leaves the block after lines that do not mention the
      SSID is left unchanged by a second rewrite. */
  lemma StableWhenWrittenAt(lines: seq<string>, ssid: string, psk: string, pre: seq<string>, post: seq<string>)
    requires Rewrite(lines, ssid, psk) == pre + NetworkBlock(ssid, psk) + post
    requires forall k :: 0 <= k < |pre| ==> !Contains(pre[k], SsidPattern(ssid))
    ensures Rewrite(Rewrite(lines, ssid, psk), ssid, psk) == Rewrite(lines, ssid, psk)
  {
    LocatesWrittenBlock(pre, ssid, psk, post);
    MiddleSlice(pre, NetworkBlock(ssid, psk), post);
    RewriteFixedAt(pre + NetworkBlock(ssid, psk) + post, ssid, psk, |pre|);
  }

  /** A file whose search lands on the written block itself is left as it is. */
  lemma RewriteFixedAt(r: seq<string>, ssid: string, psk: string, a: nat)
    requires Located(r, ssid) == (Some(a), Some(a + 3))
    requires a + 4 <= |r| && r[a..a + 4] == NetworkBlock(ssid, psk)
    ensures Rewrite(r, ssid, psk) == r
  {
    RewriteOfReplace(r, ssid, psk, a, a + 3);
    SplitAround(r, a, a + 4);
  }

  /** The middle part of a concatenation is found again by slicing. */
  lemma MiddleSlice<T>(a: seq<T>, b: seq<T>, c: seq<T>)
    ensures (a + b + c)[|a|..|a| + |b|] == b
  {
  }

  /** Indexing into a concatenation of three parts. */
  lemma ConcatIndex<T>(a: seq<T>, b: seq<T>, c: seq<T>, k: nat)
    requires k < |a| + |b| + |c|
    ensures (a + b + c)[k] == if k < |a| then a[k] else if k < |a| + |b| then b[k - |a|] else c[k - |a| - |b|]
  {
  }

  /** A sequence is its three consecutive slices put back together. */
  lemma SplitAround<T>(r: seq<T>, a: nat, b: nat)
    requires a <= b <= |r|
    ensures r[..a] + r[a..b] + r[b..] == r
  {
  }

  /** A planned replacement starts at or before the first mention, so no
      line before its start mentions the SSID. */
  lemma ReplacePlanFacts(lines: seq<string>, ssid: string)
    requires PlanEdit(lines, ssid).Replace?
    ensures Located(lines, ssid) == (Some(PlanEdit(lines, ssid).start), Some(PlanEdit(lines, ssid).end))
    ensures forall k :: 0 <= k < PlanEdit(lines, ssid).start ==> !Contains(lines[k], SsidPattern(ssid))
  {
    var i := FirstMatch(lines, SsidPattern(ssid)).value;
    assert PlanEdit(lines, ssid).start <= i;
  }

  /** The same holds when the first write added the block for an SSID the
      file did not mention. */
  lemma RewriteStableAfterAppend(lines: seq<string>, ssid: string, psk: string)
    requires forall k :: 0 <= k < |lines| ==> !Contains(lines[k], SsidPattern(ssid))
    ensures Rewrite(Rewrite(lines, ssid, psk), ssid, psk) == Rewrite(lines, ssid, psk)
  {
    var p := SsidPattern(ssid);
    assert FirstMatch(lines, p) == None;
    var pre := if lines == [] || !IsBlank(lines[|lines| - 1]) then lines + ["\n"] else lines;
    assert forall k :: 0 <= k < |pre| ==> !Contains(pre[k], p) by {
      forall k | 0 <= k < |pre|
        ensures !Contains(pre[k], p)
      {
        if k < |lines| {
          assert pre[k] == lines[k];
        } else {
          assert pre[k] == "\n";
          NotContainsWithout("\n", p);
        }
      }
    }
    RewriteOfAppend(lines, ssid, psk);
    assert pre + NetworkBlock(ssid, psk) + [] == pre + NetworkBlock(ssid, psk);
    StableWhenWrittenAt(lines, ssid, psk, pre, []);
  }

  // ---------------------------------------------------------------------
  // Scan results: drop empty names, remove duplicates, sort
  // ---------------------------------------------------------------------

  predicate StrictlySorted(r: seq<string>)
  {
    forall i, j :: 0 <= i < j < |r| ==> Less(r[i], r[j])
  }

  /** x put into its place in a strictly sorted list, unless already there. */
  function Insert(r: seq<string>, x: string): (t: seq<string>)
    requires StrictlySorted(r)
    ensures StrictlySorted(t)
    ensures forall s :: s in t <==> s in r || s == x
  {
    if r == [] then [x]
    else if x == r[0] then r
    else if Less(x, r[0]) then
      assert forall k :: 0 <= k < |r| ==> Less(x, r[k]) by {
        forall k | 0 <= k < |r|
          ensures Less(x, r[k])
        {
          if k > 0 {
            LessTransitive(x, r[0], r[k]);
          }
        }
      }
      [x] + r
    else
      LessTotal(x, r[0]);
      var t' := Insert(r[1..], x);
      assert forall s :: s in t' ==> Less(r[0], s) by {
        forall s | s in t'
          ensures Less(r[0], s)
        {
          if s != x {
            var k :| 1 <= k < |r| && r[k] == s;
          }
        }
      }
      [r[0]] + t'
  }

  /** The SSID list the scan reports: the non-empty names found, each once,
      in ascending order. */
  function DistinctSsids(found: seq<string>): (r: seq<string>)
    ensures StrictlySorted(r)
    ensures forall s :: s in r <==> s in found && s != ""
  {
    if found == [] then []
    else
      var rest := DistinctSsids(found[..|found| - 1]);
      var x := found[|found| - 1];
      assert forall s :: s in found <==> s in found[..|found| - 1] || s == x by {
        assert found == found[..|found| - 1] + [x];
      }
      if x == "" then rest else Insert(rest, x)
  }

  /** Two strictly sorted lists with the same elements are the same list. */
  lemma {:induction false} SortedSetUnique(a: seq<string>, b: seq<string>)
    requires StrictlySorted(a) && StrictlySorted(b)
    requires forall s :: s in a <==> s in b
    ensures a == b
    decreases |a|
  {
    assert a != [] ==> a[0] in a;
    assert b != [] ==> b[0] in b;
    if a != [] && b != [] {
      if a[0] != b[0] {
        assert b[0] in b && a[0] in a;
        var i :| 0 <= i < |a| && a[i] == b[0];
        var j :| 0 <= j < |b| && b[j] == a[0];
        assert Less(a[0], b[0]) && Less(b[0], a[0]);
        LessAsymmetric(a[0], b[0]);
      }
      forall s
        ensures s in a[1..] <==> s in b[1..]
      {
        assert a == [a[0]] + a[1..] && b == [b[0]] + b[1..];
        if s in a[1..] {
          var i :| 0 <= i < |a| - 1 && a[1..][i] == s;
          assert Less(a[0], a[i + 1]);
          LessIrreflexive(a[0]);
          assert s != b[0] && s in b;
          assert s in b[1..];
        }
        if s in b[1..] {
          var j :| 0 <= j < |b| - 1 && b[1..][j] == s;
          assert Less(b[0], b[j + 1]);
          LessIrreflexive(b[0]);
          assert s != a[0] && s in a;
          assert s in a[1..];
        }
      }
      SortedSetUnique(a[1..], b[1..]);
      assert a == [a[0]] + a[1..] && b == [b[0]] + b[1..];
    }
  }

  /** The scan result is THE sorted list of the distinct non-empty names:
      any strictly sorted list of exactly those names equals it. */
  lemma DistinctSsidsCanonical(found: seq<string>, r: seq<string>)
    requires StrictlySorted(r)
    requires forall s :: s in r <==> s in found && s != ""
    ensures r == DistinctSsids(found)
  {
    SortedSetUnique(r, DistinctSsids(found));
  }

  /** Cleaning an already cleaned list changes nothing, and neither the
      order of the names found nor their repetition matters. */
  lemma DistinctSsidsIdempotent(found: seq<string>)
    ensures DistinctSsids(DistinctSsids(found)) == DistinctSsids(found)
  {
    var r := DistinctSsids(found);
    assert "" !in r;
    SortedSetUnique(DistinctSsids(r), r);
  }

  lemma DistinctSsidsSameNames(found: seq<string>, other: seq<string>)
    requires forall s :: s in found <==> s in other
    ensures DistinctSsids(found) == DistinctSsids(other)
  {
    SortedSetUnique(DistinctSsids(found), DistinctSsids(other));
  }
}
