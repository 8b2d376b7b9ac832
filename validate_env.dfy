/** `src/utils/validateEnv.ts`: the check on the replica's own address,
    `/^\d{1,3}\.\d{1,3}\.\d{1,3}\.\d{1,3}:\d+$/`. The regular expression is
    modelled by a left-to-right matcher over digit runs (each `\d` class is
    followed by a character it cannot match, so the match is unique), and
    proved equal to a description by splitting: a host and a port around one
    colon, four groups of one to three digits in the host. No range check is
    made on the numbers. */
module ValidateEnv {
  import opened Wrappers
  import opened JsSemantics

  /** A `\d{1,3}` group. `\d` without the `u` flag is ASCII `[0-9]`. */
  predicate IsGroup(g: string)
  {
    1 <= |g| <= 3 && forall i :: 0 <= i < |g| ==> IsDecimalDigit(g[i])
  }

  /** A `\d+` port. */
  predicate IsPort(p: string)
  {
    1 <= |p| && forall i :: 0 <= i < |p| ==> IsDecimalDigit(p[i])
  }

  /** The address shape: exactly one colon, digits after it, and before it
      exactly four dot-separated groups of one to three digits. */
  predicate AddressShape(s: string)
  {
    var halves := Split(s, ':');
    |halves| == 2 && IsPort(halves[1])
    && var groups := Split(halves[0], '.');
       |groups| == 4 && forall i :: 0 <= i < 4 ==> IsGroup(groups[i])
  }

  /** Length of the run of digits that starts `s`. */
  function DigitRun(s: string): (n: nat)
    ensures n <= |s|
    ensures forall i :: 0 <= i < n ==> IsDecimalDigit(s[i])
    ensures n < |s| ==> !IsDecimalDigit(s[n])
  {
    if s != [] && IsDecimalDigit(s[0]) then 1 + DigitRun(s[1..]) else 0
  }

  /** The matcher for `k` remaining `\d{1,3}` groups, each followed by `.`,
      the last by `:` and the `\d+$` port. */
  function MatchGroups(s: string, k: nat): bool
    requires k >= 1
    decreases |s|
  {
    var n := DigitRun(s);
    1 <= n <= 3 && n < |s|
    && if k > 1 then s[n] == '.' && MatchGroups(s[n + 1..], k - 1)
       else s[n] == ':' && IsPort(s[n + 1..])
  }

  /** `regex.test(input)`. */
  predicate RegexTest(s: string)
  {
    MatchGroups(s, 4)
  }

  /** `addressValidator`: the input itself when it has the address shape, and
      otherwise the error naming it. */
  function AddressValidator(input: string): (r: Result<string, string>)
    ensures r.Success? <==> AddressShape(input)
    ensures r.Success? ==> r.value == input
    ensures r.Failure? ==> r.error == "Invalid address format: " + input
  {
    RegexMatchesShape(input);
    if !RegexTest(input) then Failure("Invalid address format: " + input) else Success(input)
  }

  /** A digit string followed by a non-digit (or nothing) is a whole run. */
  lemma {:induction false} DigitRunOfDigitsThen(d: string, rest: string)
    requires forall i :: 0 <= i < |d| ==> IsDecimalDigit(d[i])
    requires rest == [] || !IsDecimalDigit(rest[0])
    ensures DigitRun(d + rest) == |d|
  {
    if d == [] {
      assert d + rest == rest;
    } else {
      assert (d + rest)[1..] == d[1..] + rest;
      DigitRunOfDigitsThen(d[1..], rest);
    }
  }

  /** Splitting the join of separator-free pieces gives the pieces back. */
  lemma {:induction false} SplitOfJoin(parts: seq<string>, sep: char)
    requires |parts| >= 1
    requires forall i :: 0 <= i < |parts| ==> sep !in parts[i]
    ensures Split(Join(parts, sep), sep) == parts
    decreases |parts|
  {
    if |parts| > 1 {
      var s := Join(parts, sep);
      var p0 := parts[0];
      var tail := Join(parts[1..], sep);
      assert s == p0 + [sep] + tail;
      assert s[|p0|] == sep;
      assert sep in s;
      FirstSeparator(p0, sep, tail);
      var i := CharIndex(s, sep);
      assert s[..i] == p0;
      assert s[i + 1..] == tail;
      forall j | 0 <= j < |parts[1..]| ensures sep !in parts[1..][j] {
        assert parts[1..][j] == parts[j + 1];
      }
      SplitOfJoin(parts[1..], sep);
      assert [p0] + parts[1..] == parts;
    }
  }

  /** The first separator after a separator-free piece is the one that ends
      it. */
  lemma {:induction false} FirstSeparator(p0: string, sep: char, tail: string)
    requires sep !in p0
    ensures sep in p0 + [sep] + tail
    ensures CharIndex(p0 + [sep] + tail, sep) == |p0|
  {
    var s := p0 + [sep] + tail;
    assert s[|p0|] == sep;
    if p0 != [] {
      assert s[1..] == p0[1..] + [sep] + tail;
      FirstSeparator(p0[1..], sep, tail);
    }
  }

  /** A dot-joined list of digit groups holds no colon. */
  lemma {:induction false} NoColonInGroups(gs: seq<string>)
    requires |gs| >= 1 && forall i :: 0 <= i < |gs| ==> IsGroup(gs[i])
    ensures ':' !in Join(gs, '.')
    decreases |gs|
  {
    if |gs| > 1 {
      NoColonInGroups(gs[1..]);
      assert ':' !in gs[0];
    } else {
      assert ':' !in gs[0];
    }
  }

  /** One step of the matcher: a group and the separator after it. */
  lemma MatchStep(g: string, sep: char, rest: string, k: nat)
    requires IsGroup(g) && k >= 1 && !IsDecimalDigit(sep)
    ensures MatchGroups(g + [sep] + rest, k) ==
            if k > 1 then sep == '.' && MatchGroups(rest, k - 1) else sep == ':' && IsPort(rest)
  {
    var s := g + [sep] + rest;
    assert s == g + ([sep] + rest);
    DigitRunOfDigitsThen(g, [sep] + rest);
    assert s[|g|] == sep;
    assert s[|g| + 1..] == rest;
  }

  /** Groups joined by dots, then a colon and a port, are matched. */
  lemma {:induction false} MatchGroupsOfShape(gs: seq<string>, port: string)
    requires |gs| >= 1 && forall i :: 0 <= i < |gs| ==> IsGroup(gs[i])
    requires IsPort(port)
    ensures MatchGroups(Join(gs, '.') + [':'] + port, |gs|)
    decreases |gs|
  {
    if |gs| == 1 {
      assert Join(gs, '.') == gs[0];
      MatchStep(gs[0], ':', port, 1);
    } else {
      var tail := gs[1..];
      forall j | 0 <= j < |tail| ensures IsGroup(tail[j]) {
        assert tail[j] == gs[j + 1];
      }
      MatchGroupsOfShape(tail, port);
      var rest := Join(tail, '.') + [':'] + port;
      assert Join(gs, '.') == gs[0] + ['.'] + Join(tail, '.');
      Regroup(gs[0], ['.'], Join(tail, '.'), [':'], port);
      MatchStep(gs[0], '.', rest, |gs|);
    }
  }

  /** The groups a successful match reads. */
  function MatchedGroups(s: string, k: nat): (gs: seq<string>)
    requires k >= 1 && MatchGroups(s, k)
    ensures |gs| == k
    ensures forall i :: 0 <= i < k ==> IsGroup(gs[i])
    decreases |s|
  {
    var n := DigitRun(s);
    if k > 1 then [s[..n]] + MatchedGroups(s[n + 1..], k - 1) else [s[..n]]
  }

  /** The port a successful match reads. */
  function MatchedPort(s: string, k: nat): (p: string)
    requires k >= 1 && MatchGroups(s, k)
    ensures IsPort(p)
    decreases |s|
  {
    var n := DigitRun(s);
    if k > 1 then MatchedPort(s[n + 1..], k - 1) else s[n + 1..]
  }

  /** A matched string is its groups joined by dots, a colon and its port. */
  lemma {:induction false} MatchedDecomposes(s: string, k: nat)
    requires k >= 1 && MatchGroups(s, k)
    ensures s == Join(MatchedGroups(s, k), '.') + [':'] + MatchedPort(s, k)
    decreases |s|
  {
    var n := DigitRun(s);
    var head := s[..n];
    var rest := s[n + 1..];
    MatchedHead(s, k);
    if k > 1 {
      MatchedDecomposes(rest, k - 1);
      var tail := MatchedGroups(rest, k - 1);
      var port := MatchedPort(rest, k - 1);
      JoinCons(head, tail, '.');
      assert s == head + ['.'] + (Join(tail, '.') + [':'] + port);
      Regroup(head, ['.'], Join(tail, '.'), [':'], port);
    } else {
      assert Join([head], '.') == head;
    }
  }

  /** The first group a successful match reads, and what it leaves. */
  lemma MatchedHead(s: string, k: nat)
    requires k >= 1 && MatchGroups(s, k)
    ensures var n := DigitRun(s);
            && n < |s| && s == s[..n] + [s[n]] + s[n + 1..]
            && (k > 1 ==> s[n] == '.' && MatchGroups(s[n + 1..], k - 1)
                          && MatchedGroups(s, k) == [s[..n]] + MatchedGroups(s[n + 1..], k - 1)
                          && MatchedPort(s, k) == MatchedPort(s[n + 1..], k - 1))
            && (k == 1 ==> s[n] == ':' && MatchedGroups(s, k) == [s[..n]] && MatchedPort(s, k) == s[n + 1..])
  {
  }

  /** Concatenation regrouped. */
  lemma Regroup(a: string, b: string, c: string, d: string, e: string)
    ensures a + b + (c + d + e) == a + b + c + d + e
  {
  }

  /** Joining a group in front of a list of groups. */
  lemma JoinCons(head: string, tail: seq<string>, sep: char)
    requires |tail| >= 1
    ensures Join([head] + tail, sep) == head + [sep] + Join(tail, sep)
  {
    assert ([head] + tail)[1..] == tail;
  }

  /** The matcher accepts exactly the strings of the address shape. */
  lemma RegexMatchesShape(s: string)
    ensures RegexTest(s) <==> AddressShape(s)
  {
    if RegexTest(s) {
      var gs := MatchedGroups(s, 4);
      var port := MatchedPort(s, 4);
      MatchedDecomposes(s, 4);
      var host := Join(gs, '.');
      NoColonInGroups(gs);
      assert ':' !in port by {
        assert forall j :: 0 <= j < |port| ==> IsDecimalDigit(port[j]);
      }
      assert Join([host, port], ':') == s;
      SplitOfJoin([host, port], ':');
      forall i | 0 <= i < 4 ensures '.' !in gs[i] {
        assert IsGroup(gs[i]);
      }
      SplitOfJoin(gs, '.');
    }
    if AddressShape(s) {
      var halves := Split(s, ':');
      var groups := Split(halves[0], '.');
      assert s == halves[0] + [':'] + halves[1];
      MatchGroupsOfShape(groups, halves[1]);
    }
  }

  /** Four groups and a port, in the nesting the matcher reads them, are
      matched. */
  lemma MatchesFourGroups(a: string, b: string, c: string, d: string, port: string)
    requires IsGroup(a) && IsGroup(b) && IsGroup(c) && IsGroup(d) && IsPort(port)
    ensures RegexTest(a + ['.'] + (b + ['.'] + (c + ['.'] + (d + [':'] + port))))
  {
    var t1 := d + [':'] + port;
    MatchStep(d, ':', port, 1);
    var t2 := c + ['.'] + t1;
    MatchStep(c, '.', t1, 2);
    var t3 := b + ['.'] + t2;
    MatchStep(b, '.', t2, 3);
    MatchStep(a, '.', t3, 4);
  }

  /** No range check: any four groups of one to three digits and any digit
      port are accepted, whatever their values (`999.999.999.999:0` too). */
  lemma NoRangeCheck(a: string, b: string, c: string, d: string, port: string)
    requires IsGroup(a) && IsGroup(b) && IsGroup(c) && IsGroup(d) && IsPort(port)
    ensures var address := a + "." + b + "." + c + "." + d + ":" + port;
            AddressValidator(address) == Success(address)
  {
    var t1 := d + [':'] + port;
    var t2 := c + ['.'] + t1;
    var t3 := b + ['.'] + t2;
    var t4 := a + ['.'] + t3;
    assert d + ":" + port == t1;
    assert c + "." + d + ":" + port == t2;
    assert b + "." + c + "." + d + ":" + port == t3;
    assert a + "." + b + "." + c + "." + d + ":" + port == t4;
    MatchesFourGroups(a, b, c, d, port);
  }
}
