/**
 * The edit distance behind "Did you mean" (src/cli/command-suggestion.ts): the two-row loop, the
 * recurrence it computes, and what that recurrence means.
 */
module EditDistance {
  function Min(x: nat, y: nat): nat { if x < y then x else y }

  function Init(s: string): (r: string)
    requires s != ""
    ensures |r| == |s| - 1
  {
    s[..|s| - 1]
  }

  function Last(s: string): char
    requires s != ""
  {
    s[|s| - 1]
  }

  function Cost(c: char, d: char): nat { if c == d then 0 else 1 }

  /** The recursive edit distance, by the last characters. */
  function Distance(a: string, b: string): nat
    decreases |a| + |b|
  {
    if a == "" then |b|
    else if b == "" then |a|
    else
      Min(Min(Distance(Init(a), b) + 1, Distance(a, Init(b)) + 1),
          Distance(Init(a), Init(b)) + Cost(Last(a), Last(b)))
  }

  // ---- The code ----

  method Levenshtein(a: string, b: string) returns (d: nat)
    ensures d == Distance(a, b)
  {
    var m, n := |a|, |b|;
    if m == 0 { return n; }
    if n == 0 { return m; }
    var prev: array<nat> := new nat[n + 1](i => i);
    var curr: array<nat> := new nat[n + 1](_ => 0);
    Borders(a, b);
    hide Distance;
    for i := 1 to m + 1
      invariant prev.Length == curr.Length == n + 1 && prev != curr && fresh(prev) && fresh(curr)
      invariant forall j :: 0 <= j <= n ==> prev[j] == Distance(a[..i - 1], b[..j])
    {
      FillRow(a, b, i, prev, curr);
      prev, curr := curr, prev;
    }
    assert a[..m] == a && b[..n] == b;
    return prev[n];
  }

  method FillRow(a: string, b: string, i: nat, prev: array<nat>, curr: array<nat>)
    requires 0 < i <= |a| && prev.Length == curr.Length == |b| + 1 && prev != curr
    requires forall j :: 0 <= j <= |b| ==> prev[j] == Distance(a[..i - 1], b[..j])
    modifies curr
    ensures forall j :: 0 <= j <= |b| ==> curr[j] == Distance(a[..i], b[..j])
  {
    Borders(a, b);
    hide Distance, Min, Cost;
    curr[0] := i;
    for j := 1 to |b| + 1
      invariant forall k :: 0 <= k < j ==> curr[k] == Distance(a[..i], b[..k])
    {
      var cost := Cost(a[i - 1], b[j - 1]);
      Prefixes(a, b, i, j);
      curr[j] := Min(Min(prev[j] + 1, curr[j - 1] + 1), prev[j - 1] + cost);
    }
  }

  lemma Borders(a: string, b: string)
    ensures forall j :: 0 <= j <= |b| ==> Distance(a[..0], b[..j]) == j
    ensures forall i :: 0 <= i <= |a| ==> Distance(a[..i], b[..0]) == i
  {
  }

  lemma {:induction false} LastStep(a: string, b: string)
    requires a != "" && b != ""
    ensures Distance(a, b) == Min(Min(Distance(Init(a), b) + 1, Distance(a, Init(b)) + 1),
                                  Distance(Init(a), Init(b)) + Cost(Last(a), Last(b)))
  {
  }

  lemma {:induction false} Prefixes(a: string, b: string, i: nat, j: nat)
    requires 0 < i <= |a| && 0 < j <= |b|
    ensures Distance(a[..i], b[..j]) == Min(Min(Distance(a[..i - 1], b[..j]) + 1, Distance(a[..i], b[..j - 1]) + 1),
                                            Distance(a[..i - 1], b[..j - 1]) + Cost(a[i - 1], b[j - 1]))
  {
    hide Distance;
    assert Init(a[..i]) == a[..i - 1] && Init(b[..j]) == b[..j - 1];
    LastStep(a[..i], b[..j]);
  }

  // ---- A metric ----

  lemma {:induction false} Symmetric(a: string, b: string)
    ensures Distance(a, b) == Distance(b, a)
    decreases |a| + |b|
  {
    if a != "" && b != "" {
      Symmetric(Init(a), b);
      Symmetric(a, Init(b));
      Symmetric(Init(a), Init(b));
    }
  }

  lemma {:induction false} ZeroExactlyOnEqual(a: string, b: string)
    ensures Distance(a, b) == 0 <==> a == b
    decreases |a| + |b|
  {
    if a != "" && b != "" {
      ZeroExactlyOnEqual(Init(a), Init(b));
      assert a == Init(a) + [Last(a)] && b == Init(b) + [Last(b)];
    }
  }

  lemma {:induction false} Triangle(a: string, b: string, c: string)
    ensures Distance(a, c) <= Distance(a, b) + Distance(b, c)
    decreases |a| + |b| + |c|
  {
    if b == "" {
      LengthBound(a, c);
    } else if a == "" {
      LengthGap(b, c);
    } else if c == "" {
      LengthGap(b, a);
      Symmetric(a, b);
    } else {
      Triangle(Init(a), b, c);
      Triangle(a, b, Init(c));
      Triangle(a, Init(b), c);
      Triangle(a, Init(b), Init(c));
      Triangle(Init(a), Init(b), c);
      Triangle(Init(a), Init(b), Init(c));
    }
  }

  lemma {:induction false} LengthBound(a: string, b: string)
    ensures Distance(a, b) <= |a| + |b|
    decreases |a| + |b|
  {
    if a != "" && b != "" { LengthBound(Init(a), b); }
  }

  lemma {:induction false} LengthGap(a: string, b: string)
    ensures |b| <= |a| + Distance(a, b) && |a| <= |b| + Distance(a, b)
    decreases |a| + |b|
  {
    if a != "" && b != "" {
      LengthGap(Init(a), b);
      LengthGap(a, Init(b));
      LengthGap(Init(a), Init(b));
    }
  }

  // ---- Edit scripts ----

  datatype Edit = Insert(at: nat, c: char) | Delete(at: nat) | Replace(at: nat, c: char)

  predicate Applies(e: Edit, s: string) {
    if e.Insert? then e.at <= |s| else e.at < |s|
  }

  function Apply(e: Edit, s: string): string
    requires Applies(e, s)
  {
    match e
    case Insert(i, c) => s[..i] + [c] + s[i..]
    case Delete(i) => s[..i] + s[i + 1..]
    case Replace(i, c) => s[i := c]
  }

  /** `script` turns `a` into `b`, one edit at a time. */
  predicate Turns(script: seq<Edit>, a: string, b: string)
    decreases |script|
  {
    if script == [] then a == b else Applies(script[0], a) && Turns(script[1..], Apply(script[0], a), b)
  }

  /** A script as long as the distance. */
  function Script(a: string, b: string): seq<Edit>
    decreases |a| + |b|
  {
    if a == "" then
      if b == "" then [] else Script(a, Init(b)) + [Insert(|b| - 1, Last(b))]
    else if b == "" then [Delete(|a| - 1)] + Script(Init(a), b)
    else if Distance(a, b) == Distance(Init(a), b) + 1 then [Delete(|a| - 1)] + Script(Init(a), b)
    else if Distance(a, b) == Distance(a, Init(b)) + 1 then Script(a, Init(b)) + [Insert(|b| - 1, Last(b))]
    else if Last(a) == Last(b) then Script(Init(a), Init(b))
    else [Replace(|a| - 1, Last(b))] + Script(Init(a), Init(b))
  }

  lemma {:induction false} TurnsOnward(script: seq<Edit>, a: string, b: string, e: Edit)
    requires Turns(script, a, b) && Applies(e, b)
    ensures Turns(script + [e], a, Apply(e, b))
    decreases |script|
  {
    var longer := script + [e];
    if script == [] {
      assert longer == [e];
    } else {
      TurnsOnward(script[1..], Apply(script[0], a), b, e);
      assert longer[1..] == script[1..] + [e];
    }
  }

  /** Edits inside a prefix leave what follows alone. */
  lemma AppliesBefore(e: Edit, s: string, suffix: string)
    requires Applies(e, s)
    ensures Applies(e, s + suffix) && Apply(e, s + suffix) == Apply(e, s) + suffix
  {
    var longer := s + suffix;
    match e
    case Insert(i, c) => assert longer[..i] == s[..i] && longer[i..] == s[i..] + suffix;
    case Delete(i) => assert longer[..i] == s[..i] && longer[i + 1..] == s[i + 1..] + suffix;
    case Replace(i, c) =>
  }

  /** Edits inside a prefix leave what follows alone. */
  lemma {:induction false} TurnsBefore(script: seq<Edit>, a: string, b: string, suffix: string)
    requires Turns(script, a, b)
    ensures Turns(script, a + suffix, b + suffix)
    decreases |script|
  {
    if script != [] {
      AppliesBefore(script[0], a, suffix);
      TurnsBefore(script[1..], Apply(script[0], a), b, suffix);
    }
  }

  lemma TurnsFirst(e: Edit, script: seq<Edit>, a: string, b: string)
    requires Applies(e, a) && Turns(script, Apply(e, a), b)
    ensures Turns([e] + script, a, b)
  {
    assert ([e] + script)[1..] == script;
  }

  lemma DeleteLast(script: seq<Edit>, a: string, b: string)
    requires a != "" && Turns(script, Init(a), b)
    ensures Turns([Delete(|a| - 1)] + script, a, b)
  {
    assert Apply(Delete(|a| - 1), a) == Init(a);
    TurnsFirst(Delete(|a| - 1), script, a, b);
  }

  lemma InsertLast(script: seq<Edit>, a: string, b: string)
    requires b != "" && Turns(script, a, Init(b))
    ensures Turns(script + [Insert(|b| - 1, Last(b))], a, b)
  {
    assert Apply(Insert(|b| - 1, Last(b)), Init(b)) == b;
    TurnsOnward(script, a, Init(b), Insert(|b| - 1, Last(b)));
  }

  lemma KeepLast(script: seq<Edit>, a: string, b: string)
    requires a != "" && b != "" && Turns(script, Init(a), Init(b)) && Last(a) == Last(b)
    ensures Turns(script, a, b)
  {
    assert a == Init(a) + [Last(a)] && b == Init(b) + [Last(b)];
    TurnsBefore(script, Init(a), Init(b), [Last(b)]);
  }

  lemma ReplaceLast(script: seq<Edit>, a: string, b: string)
    requires a != "" && b != "" && Turns(script, Init(a), Init(b))
    ensures Turns([Replace(|a| - 1, Last(b))] + script, a, b)
  {
    assert Apply(Replace(|a| - 1, Last(b)), a) == Init(a) + [Last(b)] && b == Init(b) + [Last(b)];
    TurnsBefore(script, Init(a), Init(b), [Last(b)]);
    TurnsFirst(Replace(|a| - 1, Last(b)), script, a, b);
  }

  lemma {:induction false} ScriptWorks(a: string, b: string)
    ensures Turns(Script(a, b), a, b) && |Script(a, b)| == Distance(a, b)
    decreases |a| + |b|
  {
    hide Turns, Init, Last;
    if a == "" && b == "" {
      NoEdits(a);
    } else if b != "" &&
              (a == "" || (Distance(a, b) != Distance(Init(a), b) + 1 && Distance(a, b) == Distance(a, Init(b)) + 1)) {
      ScriptWorks(a, Init(b));
      InsertLast(Script(a, Init(b)), a, b);
      LengthOfInit(b);
    } else if b == "" || Distance(a, b) == Distance(Init(a), b) + 1 {
      ScriptWorks(Init(a), b);
      DeleteLast(Script(Init(a), b), a, b);
      LengthOfInit(a);
    } else {
      ScriptWorks(Init(a), Init(b));
      if Last(a) == Last(b) {
        KeepLast(Script(Init(a), Init(b)), a, b);
      } else {
        ReplaceLast(Script(Init(a), Init(b)), a, b);
      }
    }
  }

  lemma NoEdits(a: string)
    ensures Turns([], a, a)
  {
  }

  lemma LengthOfInit(s: string)
    requires s != ""
    ensures Distance(Init(s), "") == |s| - 1 && Distance("", Init(s)) == |s| - 1
  {
  }

  lemma {:induction false} SharedSuffix(a: string, b: string, suffix: string)
    ensures Distance(a + suffix, b + suffix) <= Distance(a, b)
    decreases |suffix|
  {
    if suffix == "" {
      assert a + suffix == a && b + suffix == b;
    } else {
      SharedSuffix(a, b, Init(suffix));
      assert Init(a + suffix) == a + Init(suffix) && Init(b + suffix) == b + Init(suffix);
    }
  }

  lemma AddedLast(s: string, c: char)
    ensures Distance(s, s + [c]) <= 1 && Distance(s + [c], s) <= 1
  {
    ZeroExactlyOnEqual(s, s);
    Symmetric(s, s + [c]);
    assert Init(s + [c]) == s;
    LengthBound(s, s + [c]);
  }

  lemma ChangedLast(s: string, c: char, d: char)
    ensures Distance(s + [c], s + [d]) <= 1
  {
    ZeroExactlyOnEqual(s, s);
    assert Init(s + [c]) == s && Init(s + [d]) == s;
  }

  lemma OneEditIsNear(e: Edit, s: string)
    requires Applies(e, s)
    ensures Distance(s, Apply(e, s)) <= 1
  {
    hide Distance;
    var i := e.at;
    var head := s[..i];
    if e.Insert? {
      assert s == head + s[i..];
      AddedLast(head, e.c);
      SharedSuffix(head, head + [e.c], s[i..]);
    } else {
      assert s == head + [s[i]] + s[i + 1..];
      if e.Delete? {
        AddedLast(head, s[i]);
        SharedSuffix(head + [s[i]], head, s[i + 1..]);
      } else {
        ChangedLast(head, s[i], e.c);
        SharedSuffix(head + [s[i]], head + [e.c], s[i + 1..]);
        assert s[i := e.c] == head + [e.c] + s[i + 1..];
      }
    }
  }

  lemma {:induction false} NoShorterScript(script: seq<Edit>, a: string, b: string)
    requires Turns(script, a, b)
    ensures Distance(a, b) <= |script|
    decreases |script|
  {
    if script == [] {
      ZeroExactlyOnEqual(a, b);
    } else {
      NoShorterScript(script[1..], Apply(script[0], a), b);
      OneEditIsNear(script[0], a);
      Triangle(a, Apply(script[0], a), b);
    }
  }

  /** The distance is the least number of single-character edits from one string to the other. */
  lemma DistanceIsLeast(a: string, b: string)
    ensures exists script :: Turns(script, a, b) && |script| == Distance(a, b)
    ensures forall script :: Turns(script, a, b) ==> Distance(a, b) <= |script|
  {
    ScriptWorks(a, b);
    forall script | Turns(script, a, b)
      ensures Distance(a, b) <= |script|
    {
      NoShorterScript(script, a, b);
    }
  }
}
