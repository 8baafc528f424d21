/**
 * Two scanners for setup scripts that must agree on line endings (src/main/hooks.ts): one yields
 * lines, the other rewrites CRLF pairs to LF.
 */
module ScriptLines {
  const CR := '\r'
  const LF := '\n'

  /** One pass from left to right: every CR LF pair becomes an LF. */
  function Normalized(s: string): string {
    if s == "" then ""
    else if s[0] == CR && |s| > 1 && s[1] == LF then [LF] + Normalized(s[2..])
    else [s[0]] + Normalized(s[1..])
  }

  predicate CrlfAt(s: string, i: nat) { i + 1 < |s| && s[i] == CR && s[i + 1] == LF }

  /** The lines with an LF between neighbours. */
  function JoinLines(lines: seq<string>): string {
    if lines == [] then "" else if |lines| == 1 then lines[0] else lines[0] + [LF] + JoinLines(lines[1..])
  }

  // ---- The code ----

  /** indexOf('\r\n', from), or the length. */
  method FindCrlf(s: string, from: nat) returns (i: nat)
    requires from <= |s|
    ensures from <= i <= |s| && (i < |s| ==> CrlfAt(s, i))
    ensures forall k :: from <= k < i ==> !CrlfAt(s, k)
  {
    i := from;
    while i < |s| && !CrlfAt(s, i)
      invariant from <= i <= |s| && forall k :: from <= k < i ==> !CrlfAt(s, k)
    {
      i := i + 1;
    }
  }

  method NormalizeCrlfScriptLineEndings(script: string) returns (r: string)
    ensures r == Normalized(script)
  {
    hide Normalized;
    var crlfStart := FindCrlf(script, 0);
    if crlfStart == |script| {
      PlainTail(script, 0);
      assert script[0..] == script;
      return script;
    }
    assert script[0..] == script;
    Chunk(script, 0, crlfStart);
    var normalized := script[..crlfStart];
    var chunkStart := crlfStart + 2;
    normalized := normalized + [LF];
    crlfStart := FindCrlf(script, chunkStart);
    while crlfStart != |script|
      invariant chunkStart <= crlfStart <= |script| && (crlfStart < |script| ==> CrlfAt(script, crlfStart))
      invariant forall k :: chunkStart <= k < crlfStart ==> !CrlfAt(script, k)
      invariant normalized + Normalized(script[chunkStart..]) == Normalized(script)
      decreases |script| - chunkStart
    {
      Chunk(script, chunkStart, crlfStart);
      ghost var chunk := script[chunkStart..crlfStart];
      Regroup(normalized, chunk, [LF], Normalized(script[crlfStart + 2..]));
      normalized := normalized + script[chunkStart..crlfStart];
      normalized := normalized + [LF];
      chunkStart := crlfStart + 2;
      crlfStart := FindCrlf(script, chunkStart);
    }
    PlainTail(script, chunkStart);
    return normalized + script[chunkStart..];
  }

  lemma Regroup(a: string, b: string, c: string, d: string)
    ensures a + (b + c + d) == a + b + c + d
  {
  }

  lemma {:induction false} PlainChunk(s: string, start: nat, end: nat)
    requires start <= end <= |s| && forall k :: start <= k < end ==> !CrlfAt(s, k)
    ensures Normalized(s[start..]) == s[start..end] + Normalized(s[end..])
    decreases end - start
  {
    if start < end {
      PlainChunk(s, start + 1, end);
      assert s[start..][1..] == s[start + 1..];
      assert !CrlfAt(s, start);
      assert s[start..end] == [s[start]] + s[start + 1..end];
    } else {
      assert s[start..end] == "";
    }
  }

  lemma PlainTail(s: string, start: nat)
    requires start <= |s| && forall k :: start <= k < |s| ==> !CrlfAt(s, k)
    ensures Normalized(s[start..]) == s[start..]
  {
    PlainChunk(s, start, |s|);
    assert s[start..|s|] == s[start..] && s[|s|..] == "";
  }

  lemma Chunk(s: string, start: nat, end: nat)
    requires start <= end && CrlfAt(s, end) && forall k :: start <= k < end ==> !CrlfAt(s, k)
    ensures Normalized(s[start..]) == s[start..end] + [LF] + Normalized(s[end + 2..])
  {
    PlainChunk(s, start, end);
    assert s[end..][2..] == s[end + 2..];
  }

  /** The pieces with CR LF between neighbours. */
  function JoinCrlf(pieces: seq<string>): string {
    if pieces == [] then "" else if |pieces| == 1 then pieces[0] else pieces[0] + [CR, LF] + JoinCrlf(pieces[1..])
  }

  /** What was written with CR LF comes out with LF, and nothing else changes. */
  lemma {:induction false} PiecesComeOutWithLf(pieces: seq<string>)
    requires forall piece <- pieces :: forall k :: 0 <= k < |piece| ==> !CrlfAt(piece, k)
    ensures Normalized(JoinCrlf(pieces)) == JoinLines(pieces)
  {
    hide Normalized;
    if pieces == [] {
      PlainTail("", 0);
    } else {
      assert pieces[0] in pieces && forall piece :: piece in pieces[1..] ==> piece in pieces;
      var s, n := JoinCrlf(pieces), |pieces[0]|;
      assert forall k :: 0 <= k < n ==> s[k] == pieces[0][k];
      if |pieces| == 1 {
        PlainTail(s, 0);
        assert s[0..] == s;
      } else {
        forall k | 0 <= k < n ensures !CrlfAt(s, k) { assert !CrlfAt(pieces[0], k); }
        Chunk(s, 0, n);
        assert s[0..] == s && s[0..n] == pieces[0] && s[n + 2..] == JoinCrlf(pieces[1..]);
        PiecesComeOutWithLf(pieces[1..]);
      }
    }
  }

  predicate NoLf(s: string) { forall k :: 0 <= k < |s| ==> s[k] != LF }

  /** The generator, run to its end. */
  method IterateLfScriptLines(script: string) returns (lines: seq<string>)
    ensures JoinLines(lines) == Normalized(script)
    ensures lines != [] && forall i :: 0 <= i < |lines| ==> NoLf(lines[i])
  {
    hide Normalized, JoinLines, Ended;
    NothingYet(script);
    lines := [];
    var lineStart := 0;
    for index := 0 to |script|
      invariant lineStart <= index && forall k :: lineStart <= k < index ==> script[k] != LF
      invariant forall i :: 0 <= i < |lines| ==> NoLf(lines[i])
      invariant Ended(lines) + Normalized(script[lineStart..]) == Normalized(script)
    {
      if script[index] != LF {
        continue;
      }
      var lineEnd := if index > lineStart && script[index - 1] == CR then index - 1 else index;
      LineOf(script, lineStart, index);
      EndedAdd(lines, script[lineStart..lineEnd]);
      Regroup(Ended(lines), script[lineStart..lineEnd], [LF], Normalized(script[index + 1..]));
      lines := lines + [script[lineStart..lineEnd]];
      lineStart := index + 1;
    }
    LastLine(script, lineStart);
    EndedJoin(lines, script[lineStart..]);
    lines := lines + [script[lineStart..]];
  }

  /** That contract leaves one possible list of lines. */
  lemma {:induction false} LinesAreDetermined(a: seq<string>, b: seq<string>)
    requires a != [] && b != [] && JoinLines(a) == JoinLines(b)
    requires forall i :: 0 <= i < |a| ==> NoLf(a[i])
    requires forall i :: 0 <= i < |b| ==> NoLf(b[i])
    ensures a == b
  {
    SplitsAtFirst(a);
    SplitsAtFirst(b);
    if |a| > 1 && |b| > 1 {
      var s := JoinLines(a);
      FirstLfIsOne(s, |a[0]|, |b[0]|);
      FirstLfIsOne(s, |b[0]|, |a[0]|);
      assert a[0] == s[..|a[0]|] == b[0];
      LinesAreDetermined(a[1..], b[1..]);
    }
  }

  lemma FirstLfIsOne(s: string, m: nat, n: nat)
    requires m < |s| && n < |s| && s[m] == LF && forall k :: 0 <= k < n ==> s[k] != LF
    ensures n <= m
  {
  }

  lemma SplitsAtFirst(lines: seq<string>)
    requires lines != [] && NoLf(lines[0])
    ensures var s, n := JoinLines(lines), |lines[0]|;
      n <= |s| && s[..n] == lines[0] && (forall k :: 0 <= k < n ==> s[k] != LF) && (|lines| == 1 <==> n == |s|) &&
      (|lines| > 1 ==> s[n] == LF && s[n + 1..] == JoinLines(lines[1..]))
  {
  }

  lemma NothingYet(s: string)
    ensures Ended([]) + Normalized(s[0..]) == Normalized(s)
  {
    assert s[0..] == s;
  }

  /** Each line with its LF. */
  function Ended(lines: seq<string>): string {
    if lines == [] then "" else lines[0] + [LF] + Ended(lines[1..])
  }

  lemma {:induction false} EndedAdd(lines: seq<string>, line: string)
    ensures Ended(lines + [line]) == Ended(lines) + line + [LF]
  {
    if lines == [] {
      assert lines + [line] == [line];
    } else {
      EndedAdd(lines[1..], line);
      assert (lines + [line])[1..] == lines[1..] + [line];
    }
  }

  lemma {:induction false} EndedJoin(lines: seq<string>, last: string)
    ensures JoinLines(lines + [last]) == Ended(lines) + last
  {
    if lines == [] {
      assert lines + [last] == [last];
      assert "" + last == last;
    } else {
      EndedJoin(lines[1..], last);
      assert (lines + [last])[1..] == lines[1..] + [last];
      JoinedFirst(lines + [last]);
      EndedFirst(lines);
      hide JoinLines, Ended;
      Regroup(lines[0] + [LF], Ended(lines[1..]), last, "");
    }
  }

  lemma JoinedFirst(lines: seq<string>)
    requires |lines| > 1
    ensures JoinLines(lines) == lines[0] + [LF] + JoinLines(lines[1..])
  {
  }

  lemma EndedFirst(lines: seq<string>)
    requires lines != []
    ensures Ended(lines) == lines[0] + [LF] + Ended(lines[1..])
  {
  }

  lemma LineWithoutCr(s: string, start: nat, index: nat)
    requires start <= index < |s| && s[index] == LF && forall k :: start <= k < index ==> !CrlfAt(s, k)
    ensures Normalized(s[start..]) == s[start..index] + [LF] + Normalized(s[index + 1..])
  {
    PlainChunk(s, start, index);
    LoneLf(s, index);
    hide Normalized, CrlfAt;
    var line, rest := s[start..index], Normalized(s[index + 1..]);
    assert line + ([LF] + rest) == line + [LF] + rest;
  }

  /** A line up to the first LF at `index`. */
  lemma LineOf(s: string, start: nat, index: nat)
    requires start <= index < |s| && s[index] == LF && forall k :: start <= k < index ==> s[k] != LF
    ensures var end := if index > start && s[index - 1] == CR then index - 1 else index;
      Normalized(s[start..]) == s[start..end] + [LF] + Normalized(s[index + 1..])
  {
    hide Normalized;
    if index > start && s[index - 1] == CR {
      Chunk(s, start, index - 1);
    } else {
      LineWithoutCr(s, start, index);
    }
  }

  lemma LoneLf(s: string, index: nat)
    requires index < |s| && s[index] == LF
    ensures Normalized(s[index..]) == [LF] + Normalized(s[index + 1..])
  {
    assert s[index..][1..] == s[index + 1..];
  }

  lemma LastLine(s: string, start: nat)
    requires start <= |s| && forall k :: start <= k < |s| ==> s[k] != LF
    ensures Normalized(s[start..]) == s[start..]
  {
    PlainTail(s, start);
  }

  // ---- Once or twice ----

  predicate CrCrLfAt(s: string, i: nat) { i + 2 < |s| && s[i] == CR && s[i + 1] == CR && s[i + 2] == LF }

  predicate HasCrlf(s: string) { exists i | 0 <= i < |s| :: CrlfAt(s, i) }

  predicate HasCrCrLf(s: string) { exists i | 0 <= i < |s| :: CrCrLfAt(s, i) }

  lemma {:induction false} FixedExactlyWithoutCrlf(s: string)
    ensures Normalized(s) == s <==> !HasCrlf(s)
    ensures |Normalized(s)| <= |s| && (HasCrlf(s) ==> |Normalized(s)| < |s|)
  {
    if s != "" {
      FixedExactlyWithoutCrlf(s[1..]);
      ShiftCrlf(s);
      if CrlfAt(s, 0) {
        FixedExactlyWithoutCrlf(s[2..]);
      }
    }
  }

  lemma ShiftCrlf(s: string)
    requires s != ""
    ensures HasCrlf(s) <==> CrlfAt(s, 0) || HasCrlf(s[1..])
    ensures HasCrCrLf(s) <==> CrCrLfAt(s, 0) || HasCrCrLf(s[1..])
  {
    assert forall i :: 0 <= i < |s| - 1 ==> (CrlfAt(s[1..], i) <==> CrlfAt(s, i + 1));
    assert forall i :: 0 <= i < |s| - 1 ==> (CrCrLfAt(s[1..], i) <==> CrCrLfAt(s, i + 1));
    if HasCrlf(s) && !CrlfAt(s, 0) {
      var i :| 0 <= i < |s| && CrlfAt(s, i);
      assert CrlfAt(s[1..], i - 1);
    }
    if HasCrlf(s[1..]) {
      var i :| 0 <= i < |s[1..]| && CrlfAt(s[1..], i);
      assert CrlfAt(s, i + 1);
    }
    if HasCrCrLf(s) && !CrCrLfAt(s, 0) {
      var i :| 0 <= i < |s| && CrCrLfAt(s, i);
      assert CrCrLfAt(s[1..], i - 1);
    }
    if HasCrCrLf(s[1..]) {
      var i :| 0 <= i < |s[1..]| && CrCrLfAt(s[1..], i);
      assert CrCrLfAt(s, i + 1);
    }
  }

  /** Normalising leaves a CRLF behind exactly when the script had CR CR LF. */
  lemma {:induction false} CrlfLeftExactlyFromCrCrLf(s: string)
    ensures HasCrlf(Normalized(s)) <==> HasCrCrLf(s)
    ensures s != "" ==> Normalized(s) != "" && (Normalized(s)[0] == LF <==> s[0] == LF || CrlfAt(s, 0))
  {
    if s != "" {
      var n := Normalized(s);
      ShiftCrlf(s);
      CrlfLeftExactlyFromCrCrLf(s[1..]);
      if CrlfAt(s, 0) {
        CrlfLeftExactlyFromCrCrLf(s[2..]);
        ShiftCrlf(s[1..]);
        assert s[1..][1..] == s[2..];
        ShiftCrlf(n);
        assert n[1..] == Normalized(s[2..]);
      } else {
        ShiftCrlf(n);
        assert n[1..] == Normalized(s[1..]);
      }
    }
  }

  /** So a second pass changes nothing exactly when the script has no CR CR LF. */
  lemma SecondPassIsIdleExactly(s: string)
    ensures Normalized(Normalized(s)) == Normalized(s) <==> !HasCrCrLf(s)
  {
    FixedExactlyWithoutCrlf(Normalized(s));
    CrlfLeftExactlyFromCrCrLf(s);
  }

  /** Position `i` of the normalised script comes from a CR CR LF of the script. */
  ghost predicate FromCrCrLf(s: string, i: nat) {
    exists j | 0 <= j < |s| :: CrCrLfAt(s, j) && i == |Normalized(s[..j])|
  }

  /** And it leaves them exactly where the script had CR CR LF. */
  lemma {:induction false} CrlfLeftExactlyWhereCrCrLf(s: string, i: nat)
    ensures CrlfAt(Normalized(s), i) <==> FromCrCrLf(s, i)
  {
    if s != "" {
      var drop := if CrlfAt(s, 0) then 2 else 1;
      CrlfLeftExactlyFromCrCrLf(s[1..]);
      if i > 0 { CrlfLeftExactlyWhereCrCrLf(s[drop..], i - 1); }
      ShiftPlaces(s, i);
    }
  }

  lemma PlaceInTail(s: string, j: nat)
    requires s != "" && CrCrLfAt(s, j) && j > 0
    ensures var drop := if CrlfAt(s, 0) then 2 else 1;
      j >= drop && CrCrLfAt(s[drop..], j - drop) && |Normalized(s[..j])| == 1 + |Normalized(s[drop..][..j - drop])|
  {
    var drop := if CrlfAt(s, 0) then 2 else 1;
    assert s[..j][drop..] == s[drop..][..j - drop];
  }

  lemma ShiftPlaces(s: string, i: nat)
    requires s != ""
    ensures var drop := if CrlfAt(s, 0) then 2 else 1;
      FromCrCrLf(s, i) <==> (i == 0 && CrCrLfAt(s, 0)) || (i > 0 && FromCrCrLf(s[drop..], i - 1))
  {
    hide Normalized;
    NothingNormalized();
    var drop := if CrlfAt(s, 0) then 2 else 1;
    if FromCrCrLf(s, i) {
      var j :| 0 <= j < |s| && CrCrLfAt(s, j) && i == |Normalized(s[..j])|;
      if j > 0 { PlaceInTail(s, j); } else { assert s[..0] == ""; }
    }
    if i == 0 && CrCrLfAt(s, 0) { assert s[..0] == ""; }
    if i > 0 && FromCrCrLf(s[drop..], i - 1) {
      var t := s[drop..];
      var j :| 0 <= j < |t| && CrCrLfAt(t, j) && i - 1 == |Normalized(t[..j])|;
      PlaceInTail(s, j + drop);
    }
  }

  lemma NothingNormalized()
    ensures Normalized("") == ""
  {
  }
}
