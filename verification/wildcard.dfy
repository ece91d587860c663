// Wildcard matching, internal/iam/policy.go. Characters stand for the bytes of a string.

module Wildcards {
  // What a pattern is meant to match: `*` any run of characters, `?` any one.
  predicate Glob(p: string, v: string)
    decreases |p| + |v|
  {
    if p == "" then v == ""
    else if p[0] == '*' then Glob(p[1..], v) || (v != "" && Glob(p, v[1..]))
    else v != "" && Fit(p[0], v[0]) && Glob(p[1..], v[1..])
  }

  predicate Fit(c: char, x: char) { c == '?' || c == x }

  // A pattern that ends in `/*` is meant to match what stands before it as well.
  predicate Meant(p: string, v: string) {
    Glob(p, v) || (|p| >= 2 && p[|p| - 2..] == "/*" && v == p[..|p| - 2])
  }

  // --- the pattern as meant, one star at a time ---

  // s fits w character for character. A star in s fits only a star.
  ghost predicate Fits(s: string, w: string) {
    |s| == |w| && forall i :: 0 <= i < |s| ==> Fit(s[i], w[i])
  }

  lemma {:induction false} FitsThen(s: string, t: string, w: string, u: string)
    requires Fits(s, w)
    ensures Glob(t, u) ==> Glob(s + t, w + u)
    ensures '*' !in s ==> (Glob(s + t, w + u) <==> Glob(t, u))
    decreases |s|
  {
    if s == "" {
      assert s + t == t && w + u == u;
    } else {
      FitsThen(s[1..], t, w[1..], u);
      assert (s + t)[1..] == s[1..] + t && (w + u)[1..] == w[1..] + u;
      if s[0] == '*' && Glob(t, u) {
        SkipOne(s + t, w + u);
      }
    }
  }

  lemma SkipOne(p: string, v: string)
    requires p != "" && v != "" && p[0] == '*' && Glob(p[1..], v[1..])
    ensures Glob(p, v)
  {
    assert Glob(p, v[1..]);
  }

  // A star leaves some end of the value to the rest of the pattern.
  lemma {:induction false} StarTakes(t: string, v: string)
    ensures Glob("*" + t, v) <==> exists k :: 0 <= k <= |v| && Glob(t, v[k..])
    decreases |v|
  {
    assert ("*" + t)[1..] == t && v[0..] == v;
    if v != "" {
      StarTakes(t, v[1..]);
      if k :| 0 <= k <= |v| && Glob(t, v[k..]) {
        if k > 0 { assert v[1..][k - 1..] == v[k..]; }
      }
      if k :| 0 <= k <= |v| - 1 && Glob(t, v[1..][k..]) {
        assert v[1..][k..] == v[k + 1..];
      }
    }
  }

  // A pattern read from the left: `?` takes any one character and a plain character itself.
  lemma Heads(c: char, t: string, v: string)
    ensures Glob("", v) <==> v == ""
    ensures Glob("?" + t, v) <==> v != "" && Glob(t, v[1..])
    ensures c != '*' && c != '?' ==> (Glob([c] + t, v) <==> v != "" && v[0] == c && Glob(t, v[1..]))
    ensures Glob("*" + t, v) <==> exists k :: 0 <= k <= |v| && Glob(t, v[k..])
    ensures Meant(t + "/*", t)
  {
    StarTakes(t, v);
    assert ("?" + t)[1..] == t && ([c] + t)[1..] == t;
    assert (t + "/*")[|t|..] == "/*" && (t + "/*")[..|t|] == t;
  }

  // The characters before the first star are used up one by one.
  lemma {:induction false} NeedsRoom(s: string, t: string, v: string)
    requires '*' !in s && Glob(s + t, v)
    ensures |s| <= |v| && Fits(s, v[..|s|]) && Glob(t, v[|s|..])
    decreases |s|
  {
    if s == "" {
      assert s + t == t;
    } else {
      assert (s + t)[1..] == s[1..] + t;
      NeedsRoom(s[1..], t, v[1..]);
      assert v[1..][|s| - 1..] == v[|s|..];
      assert forall i :: 0 < i < |s| ==> s[i] == s[1..][i - 1] && v[i] == v[1..][i - 1];
    }
  }

  lemma {:induction false} OnlyStars(p: string)
    ensures Glob(p, "") <==> forall i :: 0 <= i < |p| ==> p[i] == '*'
    decreases |p|
  {
    if p != "" {
      OnlyStars(p[1..]);
      assert forall i :: 0 < i < |p| ==> p[i] == p[1..][i - 1];
    }
  }

  lemma {:induction false} Verbatim(p: string, v: string)
    requires '*' !in p && '?' !in p
    ensures Glob(p, v) <==> p == v
    decreases |p|
  {
    if p != "" && v != "" {
      Verbatim(p[1..], v[1..]);
      assert p == [p[0]] + p[1..] && v == [v[0]] + v[1..];
    }
  }

  // --- the scan with one point to return to ---

  // Where the scan stands: p and v are the next characters, star the last star passed over,
  // or -1, and from where the text it stands for ends, as far as tried.
  ghost predicate Standing(pattern: string, value: string, p: nat, v: nat, star: int, from: int) {
    && p <= |pattern| && v <= |value| && -1 <= star < p && 0 <= Start(star, from) <= v
    && (star >= 0 ==> pattern[star] == '*')
    && p - star - 1 == v - Start(star, from)
    && forall i :: star < i < p ==> Fit(pattern[i], value[v - p + i])
  }

  lemma SinceStar(pattern: string, value: string, p: nat, v: nat, star: int, from: int)
    requires Standing(pattern, value, p, v, star, from)
    ensures Fits(pattern[star + 1..p], value[Start(star, from)..v])
  {
  }

  function Start(star: int, from: int): int { if star < 0 then 0 else from }

  function Scan(pattern: string, value: string, p: nat, v: nat, star: int, from: int): bool
    requires Standing(pattern, value, p, v, star, from)
    decreases if star < 0 then |value| + 1 else |value| - from, |pattern| - p
  {
    if v == |value| then forall i :: p <= i < |pattern| ==> pattern[i] == '*'
    else if p < |pattern| && Fit(pattern[p], value[v]) then Scan(pattern, value, p + 1, v + 1, star, from)
    else if p < |pattern| && pattern[p] == '*' then Scan(pattern, value, p + 1, v, p, v)
    else if star >= 0 then Scan(pattern, value, star + 1, from + 1, star, from + 1)
    else false
  }

  // matchWildcard.
  predicate Matches(pattern: string, value: string) {
    if pattern == "*" then true
    else if '*' !in pattern && '?' !in pattern then pattern == value
    else
      || (|pattern| >= 2 && pattern[|pattern| - 2..] == "/*" && value == pattern[..|pattern| - 2])
      || Scan(pattern, value, 0, 0, -1, -1)
  }

  method WildcardMatch(pattern: string, value: string) returns (b: bool)
    ensures b <==>
      || (|pattern| >= 2 && pattern[|pattern| - 2..] == "/*" && value == pattern[..|pattern| - 2])
      || Scan(pattern, value, 0, 0, -1, -1)
    ensures b ==> Meant(pattern, value)
    ensures '*' !in value || '*' !in pattern ==> (b <==> Meant(pattern, value))
  {
    hide Glob;
    ScanMeans(pattern, value);
    if |pattern| >= 2 && pattern[|pattern| - 2..] == "/*" {
      var base := pattern[..|pattern| - 2];
      if value == base { return true; }
    }
    var p, v := 0, 0;
    var starP, starV := -1, -1;
    while v < |value|
      invariant Standing(pattern, value, p, v, starP, starV)
      invariant Scan(pattern, value, p, v, starP, starV) == Scan(pattern, value, 0, 0, -1, -1)
      decreases if starP < 0 then |value| + 1 else |value| - starV, |pattern| - p
    {
      if p < |pattern| && (pattern[p] == '?' || pattern[p] == value[v]) {
        p, v := p + 1, v + 1;
      } else if p < |pattern| && pattern[p] == '*' {
        starP, starV, p := p, v, p + 1;
      } else if starP >= 0 {
        starV := starV + 1;
        v, p := starV, starP + 1;
      } else {
        return false;
      }
    }
    ghost var at := p;
    while p < |pattern| && pattern[p] == '*'
      invariant at <= p <= |pattern| && forall i :: at <= i < p ==> pattern[i] == '*'
    {
      p := p + 1;
    }
    return p == |pattern|;
  }

  method MatchWildcard(pattern: string, value: string) returns (b: bool)
    ensures b == Matches(pattern, value)
    ensures b ==> Meant(pattern, value)
    ensures '*' !in value || '*' !in pattern || pattern == "*" ==> (b <==> Meant(pattern, value))
  {
    if Matches(pattern, value) {
      MatchesSound(pattern, value);
    }
    if '*' !in value || '*' !in pattern || pattern == "*" {
      MatchesComplete(pattern, value);
    }
    if pattern == "*" { return true; }
    if '*' !in pattern && '?' !in pattern { return pattern == value; }
    b := WildcardMatch(pattern, value);
  }

  lemma ScanMeans(pattern: string, value: string)
    ensures Scan(pattern, value, 0, 0, -1, -1) ==> Glob(pattern, value)
    ensures ('*' !in value || '*' !in pattern) && Glob(pattern, value) ==> Scan(pattern, value, 0, 0, -1, -1)
  {
    if Scan(pattern, value, 0, 0, -1, -1) {
      ScanSound(pattern, value, 0, 0, -1, -1);
    } else if ('*' !in value || '*' !in pattern) && Glob(pattern, value) {
      ScanComplete(pattern, value, 0, 0, -1, -1);
    }
  }

  // What is left to match, from where the scan would return to.
  ghost predicate Left(pattern: string, value: string, star: int, from: int)
    requires -1 <= star <= |pattern| && 0 <= Start(star, from) <= |value|
  {
    if star < 0 then Glob(pattern, value) else Glob(pattern[star..], value[from..])
  }

  // A scan that succeeds matches what is left.
  lemma {:induction false} ScanSound(pattern: string, value: string, p: nat, v: nat, star: int, from: int)
    requires Standing(pattern, value, p, v, star, from) && Scan(pattern, value, p, v, star, from)
    ensures Left(pattern, value, star, from)
    decreases if star < 0 then |value| + 1 else |value| - from, |pattern| - p
  {
    if v == |value| {
      OnlyStars(pattern[p..]);
      Reached(pattern, value, p, v, star, from);
    } else if p < |pattern| && Fit(pattern[p], value[v]) {
      ScanSound(pattern, value, p + 1, v + 1, star, from);
    } else if p < |pattern| && pattern[p] == '*' {
      ScanSound(pattern, value, p + 1, v, p, v);
      Reached(pattern, value, p, v, star, from);
    } else {
      ScanSound(pattern, value, star + 1, from + 1, star, from + 1);
      assert value[from..][1..] == value[from + 1..];
    }
  }

  // If the rest of the pattern matches the rest of the value here, all that was left matches.
  lemma Reached(pattern: string, value: string, p: nat, v: nat, star: int, from: int)
    requires Standing(pattern, value, p, v, star, from) && Glob(pattern[p..], value[v..])
    ensures Left(pattern, value, star, from)
  {
    var lo, at := star + 1, Start(star, from);
    SinceStar(pattern, value, p, v, star, from);
    FitsThen(pattern[lo..p], pattern[p..], value[at..v], value[v..]);
    assert pattern[lo..p] + pattern[p..] == pattern[lo..] && value[at..v] + value[v..] == value[at..];
    if star < 0 {
      assert pattern[lo..] == pattern && value[at..] == value;
    } else {
      assert pattern[star..][1..] == pattern[lo..];
    }
  }

  // Where no star of the pattern is mistaken for a character, what is left to match is found.
  lemma {:induction false} ScanComplete(pattern: string, value: string, p: nat, v: nat, star: int, from: int)
    requires Standing(pattern, value, p, v, star, from) && ('*' !in value || '*' !in pattern)
    requires Left(pattern, value, star, from)
    ensures Scan(pattern, value, p, v, star, from)
    decreases if star < 0 then |value| + 1 else |value| - from, |pattern| - p
  {
    hide Glob;
    PlainSoFar(pattern, value, p, v, star, from);
    if v == |value| {
      Here(pattern, value, p, v, star, from);
      OnlyStars(pattern[p..]);
      assert forall i :: p <= i < |pattern| ==> pattern[i] == pattern[p..][i - p];
    } else if p < |pattern| && Fit(pattern[p], value[v]) {
      ScanComplete(pattern, value, p + 1, v + 1, star, from);
    } else if p < |pattern| && pattern[p] == '*' {
      NextStar(pattern, value, p, v, star, from);
      ScanComplete(pattern, value, p + 1, v, p, v);
    } else {
      Mismatch(pattern, value, p, v, star, from);
      ScanComplete(pattern, value, star + 1, from + 1, star, from + 1);
    }
  }

  lemma PlainSoFar(pattern: string, value: string, p: nat, v: nat, star: int, from: int)
    requires Standing(pattern, value, p, v, star, from) && ('*' !in value || '*' !in pattern)
    ensures '*' !in pattern[star + 1..p]
  {
    forall i | star < i < p ensures pattern[i] != '*' {
      assert Fit(pattern[i], value[v - p + i]);
    }
  }

  // The value is used up: the last star stands for no more than was tried.
  lemma Here(pattern: string, value: string, p: nat, v: nat, star: int, from: int)
    requires Standing(pattern, value, p, v, star, from) && v == |value|
    requires '*' !in pattern[star + 1..p] && Left(pattern, value, star, from)
    ensures Glob(pattern[p..], "")
  {
    var s, t, at := pattern[star + 1..p], pattern[p..], Start(star, from);
    var w := value[at..];
    assert s + t == pattern[star + 1..] && value[at..v] == w;
    if star < 0 {
      assert pattern[0..] == pattern && value[0..] == value;
      NeedsRoom(s, t, w);
    } else {
      assert pattern[star..] == "*" + (s + t);
      StarTakes(s + t, w);
      var k :| 0 <= k <= |w| && Glob(s + t, w[k..]);
      NeedsRoom(s, t, w[k..]);
    }
    assert w[|s|..] == "";
  }

  // Another star: the text before it may end as early as it was found.
  lemma NextStar(pattern: string, value: string, p: nat, v: nat, star: int, from: int)
    requires Standing(pattern, value, p, v, star, from) && p < |pattern| && pattern[p] == '*'
    requires '*' !in pattern[star + 1..p] && Left(pattern, value, star, from)
    ensures Glob(pattern[p..], value[v..])
  {
    var s, t, at := pattern[star + 1..p], pattern[p..], Start(star, from);
    var w := value[at..];
    assert s + t == pattern[star + 1..] && w[|s|..] == value[v..];
    if star < 0 {
      assert pattern[0..] == pattern && value[0..] == value;
      NeedsRoom(s, t, w);
    } else {
      assert pattern[star..] == "*" + (s + t);
      StarTakes(s + t, w);
      var k :| 0 <= k <= |w| && Glob(s + t, w[k..]);
      NeedsRoom(s, t, w[k..]);
      assert w[k..][|s|..] == value[v..][k..];
      EarlierStar(t, value[v..], k);
    }
  }

  lemma EarlierStar(t: string, v: string, k: nat)
    requires t != "" && t[0] == '*' && k <= |v| && Glob(t, v[k..])
    ensures Glob(t, v)
  {
    assert t == "*" + t[1..];
    StarTakes(t[1..], v[k..]);
    var j :| 0 <= j <= |v| - k && Glob(t[1..], v[k..][j..]);
    assert v[k..][j..] == v[k + j..];
    StarTakes(t[1..], v);
  }

  // A character that fits nothing: the last star stands for more, and there is one.
  lemma Mismatch(pattern: string, value: string, p: nat, v: nat, star: int, from: int)
    requires Standing(pattern, value, p, v, star, from) && v < |value|
    requires p < |pattern| ==> !Fit(pattern[p], value[v]) && pattern[p] != '*'
    requires '*' !in pattern[star + 1..p] && Left(pattern, value, star, from)
    ensures star >= 0 && Glob(pattern[star..], value[from + 1..])
  {
    var s, t, at := pattern[star + 1..p], pattern[p..], Start(star, from);
    assert !Glob(t, value[v..]);
    SinceStar(pattern, value, p, v, star, from);
    FitsThen(s, t, value[at..v], value[v..]);
    assert s + t == pattern[star + 1..] && value[at..v] + value[v..] == value[at..];
    assert pattern[0..] == pattern && value[0..] == value;
    if star >= 0 {
      assert pattern[star..][1..] == pattern[star + 1..] && value[from..][1..] == value[from + 1..];
    }
  }

  // --- the matcher against what is meant ---

  lemma StarMatchesAll(v: string)
    ensures Glob("*", v)
  {
    StarTakes("", v);
    assert "*" + "" == "*" && v[|v|..] == "";
  }

  // Whatever matches is meant to.
  lemma MatchesSound(pattern: string, value: string)
    requires Matches(pattern, value)
    ensures Meant(pattern, value)
  {
    if pattern == "*" {
      StarMatchesAll(value);
    } else if '*' !in pattern && '?' !in pattern {
      Verbatim(pattern, value);
    } else if Scan(pattern, value, 0, 0, -1, -1) {
      ScanSound(pattern, value, 0, 0, -1, -1);
    }
  }

  // What is meant to match does, if the value or the pattern has no star.
  lemma MatchesComplete(pattern: string, value: string)
    requires '*' !in value || '*' !in pattern || pattern == "*"
    ensures Meant(pattern, value) ==> Matches(pattern, value)
  {
    assert |pattern| >= 2 && pattern[|pattern| - 2..] == "/*" ==> pattern[|pattern| - 2..][1] in pattern;
    if pattern != "*" && Meant(pattern, value) {
      if '*' !in pattern && '?' !in pattern {
        Verbatim(pattern, value);
      } else if Glob(pattern, value) {
        ScanComplete(pattern, value, 0, 0, -1, -1);
      }
    }
  }

  // --- exactly when the matcher does what is meant ---

  // Characters that fit are passed over, a star that meets a star among them.
  lemma {:induction false} PassedOver(pattern: string, value: string, n: nat)
    requires n <= |pattern| && n <= |value| && forall i :: 0 <= i < n ==> Fit(pattern[i], value[i])
    ensures Scan(pattern, value, 0, 0, -1, -1) == Scan(pattern, value, n, n, -1, -1)
  {
    if n > 0 {
      PassedOver(pattern, value, n - 1);
    }
  }

  // For every value with a star there is a pattern meant to match it that does not.
  lemma MissedByPattern(value: string) returns (pattern: string)
    requires '*' in value
    ensures Meant(pattern, value) && !Matches(pattern, value)
  {
    var i :| 0 <= i < |value| && value[i] == '*';
    pattern := value[..i] + ("*" + Ones(|value| - i));
    hide Glob, Scan;
    OnesMatch(value[..i], value[i..]);
    assert value[..i] + value[i..] == value;
    TooLong(pattern, value);
    assert pattern[i] == '*' && pattern[|pattern| - 2..][1] == '?';
  }

  function Ones(n: nat): string { seq(n, _ => '?') }

  lemma OnesMatch(pre: string, end: string)
    ensures Glob(pre + ("*" + Ones(|end|)), pre + end)
  {
    var one := Ones(|end|);
    FitsThen(one, "", end, "");
    assert one + "" == one && end + "" == end && end[0..] == end;
    StarTakes(one, end);
    FitsThen(pre, "*" + one, pre, end);
  }

  lemma TooLong(pattern: string, value: string)
    requires |pattern| == |value| + 1 && pattern[|value|] != '*'
    requires forall i :: 0 <= i < |value| ==> Fit(pattern[i], value[i])
    ensures !Scan(pattern, value, 0, 0, -1, -1)
  {
    PassedOver(pattern, value, |value|);
  }

  // For every pattern with a star, the bare star apart, there is a value it misses.
  lemma MissedValue(pattern: string) returns (value: string)
    requires '*' in pattern && pattern != "*"
    ensures Meant(pattern, value) && !Matches(pattern, value)
  {
    var i := LastStar(pattern);
    var pre, rest := pattern[..i], pattern[i + 1..];
    var j, d := FirstPlain(rest);
    var filler := seq(|rest| + 1, _ => d);
    value := pre + ("*" + filler + rest);
    assert pattern == pre + ("*" + rest);
    StarWidens(pre, rest, "*" + filler);
    hide Glob;
    var n := i + 1 + j;
    assert forall x :: i < x < n ==> pattern[x] == rest[x - i - 1] == '?';
    PassedOver(pattern, value, n);
    assert value[n] == d && (n < |pattern| ==> pattern[n] == rest[j]);
  }

  lemma StarWidens(pre: string, rest: string, more: string)
    ensures Glob(pre + ("*" + rest), pre + (more + rest))
  {
    FitsThen(rest, "", rest, "");
    assert rest + "" == rest && (more + rest)[|more|..] == rest;
    StarTakes(rest, more + rest);
    FitsThen(pre, "*" + rest, pre, more + rest);
  }

  lemma LastStar(p: string) returns (i: nat)
    requires '*' in p
    ensures i < |p| && p[i] == '*' && '*' !in p[i + 1..]
  {
    i := |p| - 1;
    while p[i] != '*'
      invariant i < |p| && '*' !in p[i + 1..] && '*' in p[..i + 1]
      decreases i
    {
      i := i - 1;
    }
  }

  // The first character that is not `?`, and one that differs from it.
  lemma FirstPlain(s: string) returns (j: nat, d: char)
    ensures j <= |s| && (forall i :: 0 <= i < j ==> s[i] == '?') && (j < |s| ==> s[j] != '?' && s[j] != d)
  {
    j := 0;
    while j < |s| && s[j] == '?'
      invariant j <= |s| && forall i :: 0 <= i < j ==> s[i] == '?'
    {
      j := j + 1;
    }
    d := if j < |s| && s[j] == 'x' then 'y' else 'x';
  }

  // Every pattern does on a value what it is meant to exactly if the value has no star.
  lemma ValueExactly(value: string)
    ensures (forall pattern :: Matches(pattern, value) <==> Meant(pattern, value)) <==> '*' !in value
  {
    if '*' in value {
      var pattern := MissedByPattern(value);
    } else {
      forall pattern ensures Matches(pattern, value) <==> Meant(pattern, value) {
        MatchesComplete(pattern, value);
        if Matches(pattern, value) { MatchesSound(pattern, value); }
      }
    }
  }

  // A pattern does what it is meant to on every value exactly if it has no star or is one.
  lemma PatternExactly(pattern: string)
    ensures (forall value :: Matches(pattern, value) <==> Meant(pattern, value)) <==>
      '*' !in pattern || pattern == "*"
  {
    if '*' in pattern && pattern != "*" {
      var value := MissedValue(pattern);
    } else {
      forall value ensures Matches(pattern, value) <==> Meant(pattern, value) {
        MatchesComplete(pattern, value);
        if Matches(pattern, value) { MatchesSound(pattern, value); }
      }
    }
  }
}
