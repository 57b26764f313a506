/** `escapeHtml` of static/app.js: `str.replace(/[&<>"]+/g, s => table[s])`
    with a table whose keys are the four single characters. The regular
    expression matches maximal runs of the four characters, so a run of two
    or more has no table entry; the callback then returns `undefined`, which
    String.prototype.replace writes as the text "undefined". */
module EscapeHtml {

  /** The characters the regular expression `[&<>"]` matches. */
  predicate IsSpecial(c: char) {
    c == '&' || c == '<' || c == '>' || c == '"'
  }

  /** The table entry for a single special character. */
  function Entity(c: char): string
    requires IsSpecial(c)
  {
    match c
    case '&' => "&amp;"
    case '<' => "&lt;"
    case '>' => "&gt;"
    case '"' => "&quot;"
  }

  /** What the callback contributes for a matched run that starts with
      `first` and is `length` characters long: the table entry of a
      one-character run, the text "undefined" for a longer one. */
  function Replacement(first: char, length: nat): string
    requires length >= 1 && IsSpecial(first)
  {
    if length == 1 then Entity(first) else "undefined"
  }

  /** The length of the run of special characters at the front of s: what
      the greedy `+` matches there. */
  function RunLength(s: string): (n: nat)
    ensures n <= |s|
    ensures forall i :: 0 <= i < n ==> IsSpecial(s[i])
    ensures n < |s| ==> !IsSpecial(s[n])
  {
    if s != [] && IsSpecial(s[0]) then 1 + RunLength(s[1..]) else 0
  }

  /** escapeHtml(str) for a string argument: the empty string gives ''; the
      global replace then works through the string, each maximal run of
      special characters replaced and every other character kept. */
  function Escape(s: string): string
    decreases |s|
  {
    if s == [] then []
    else if IsSpecial(s[0]) then
      var n := RunLength(s);
      Replacement(s[0], n) + Escape(s[n..])
    else [s[0]] + Escape(s[1..])
  }

  /** No two special characters stand next to each other in s. */
  predicate SpecialsIsolated(s: string) {
    forall i :: 0 <= i < |s| - 1 ==> !(IsSpecial(s[i]) && IsSpecial(s[i + 1]))
  }

  /** The text contains none of the characters that open a tag or end an
      attribute value. */
  predicate NoMarkup(t: string) {
    forall i :: 0 <= i < |t| ==> t[i] != '<' && t[i] != '>' && t[i] != '"'
  }

  /** A string without special characters comes back unchanged. */
  lemma {:induction false} EscapePlain(s: string)
    requires forall i :: 0 <= i < |s| ==> !IsSpecial(s[i])
    ensures Escape(s) == s
    decreases |s|
  {
    if s != [] {
      EscapePlain(s[1..]);
    }
  }

  /** The run at the front of a + b is the run at the front of a, unless a
      is all special characters. */
  lemma {:induction false} RunLengthConcat(a: string, b: string)
    requires RunLength(a) < |a| || b == [] || !IsSpecial(b[0])
    ensures RunLength(a + b) == RunLength(a)
    decreases |a|
  {
    if a != [] && IsSpecial(a[0]) {
      assert (a + b)[1..] == a[1..] + b;
      RunLengthConcat(a[1..], b);
    } else if a == [] {
    } else {
      assert (a + b)[0] == a[0];
    }
  }

  /** A string of special characters only is one run, as long as itself. */
  lemma {:induction false} RunLengthAll(run: string)
    requires forall i :: 0 <= i < |run| ==> IsSpecial(run[i])
    ensures RunLength(run) == |run|
    decreases |run|
  {
    if run != [] {
      RunLengthAll(run[1..]);
    }
  }

  /** A maximal run at the front is replaced as a whole. */
  lemma EscapeRunFront(run: string, b: string)
    requires |run| >= 1 && forall i :: 0 <= i < |run| ==> IsSpecial(run[i])
    requires b == [] || !IsSpecial(b[0])
    ensures Escape(run + b) == Replacement(run[0], |run|) + Escape(b)
  {
    RunLengthAll(run);
    RunLengthConcat(run, b);
    var s := run + b;
    assert s[0] == run[0];
    assert s[..|run|] == run && s[|run|..] == b;
  }

  /** An ordinary character at the front is kept. */
  lemma EscapePlainFront(c: char, b: string)
    requires !IsSpecial(c)
    ensures Escape([c] + b) == [c] + Escape(b)
  {
    assert ([c] + b)[1..] == b;
  }

  lemma Associative(x: string, y: string, z: string)
    ensures x + (y + z) == x + y + z
  {
  }

  lemma SplitFirst(s: string)
    requires s != []
    ensures s == [s[0]] + s[1..]
  {
  }

  lemma SplitAt(s: string, n: nat)
    requires n <= |s|
    ensures s == s[..n] + s[n..]
  {
  }

  /** The step of EscapeConcat at a run: given the claim for what follows
      the run, it holds with the run in front. */
  lemma EscapeConcatRun(run: string, rest: string, b: string)
    requires |run| >= 1 && forall i :: 0 <= i < |run| ==> IsSpecial(run[i])
    requires rest == [] || !IsSpecial(rest[0])
    requires rest != [] || b == [] || !IsSpecial(b[0])
    requires Escape(rest + b) == Escape(rest) + Escape(b)
    ensures Escape(run + rest + b) == Escape(run + rest) + Escape(b)
  {
    calc {
      Escape(run + rest + b);
      { Associative(run, rest, b); }
      Escape(run + (rest + b));
      { if rest == [] { assert rest + b == b; } else { assert (rest + b)[0] == rest[0]; }
        EscapeRunFront(run, rest + b); }
      Replacement(run[0], |run|) + Escape(rest + b);
      Replacement(run[0], |run|) + (Escape(rest) + Escape(b));
      { Associative(Replacement(run[0], |run|), Escape(rest), Escape(b)); }
      Replacement(run[0], |run|) + Escape(rest) + Escape(b);
      { EscapeRunFront(run, rest); }
      Escape(run + rest) + Escape(b);
    }
  }

  /** The step of EscapeConcat at an ordinary character. */
  lemma EscapeConcatPlain(c: char, rest: string, b: string)
    requires !IsSpecial(c)
    requires Escape(rest + b) == Escape(rest) + Escape(b)
    ensures Escape([c] + rest + b) == Escape([c] + rest) + Escape(b)
  {
    calc {
      Escape([c] + rest + b);
      { Associative([c], rest, b); }
      Escape([c] + (rest + b));
      { EscapePlainFront(c, rest + b); }
      [c] + Escape(rest + b);
      [c] + (Escape(rest) + Escape(b));
      { Associative([c], Escape(rest), Escape(b)); }
      [c] + Escape(rest) + Escape(b);
      { EscapePlainFront(c, rest); }
      Escape([c] + rest) + Escape(b);
    }
  }

  /** Escaping distributes over a concatenation that does not cut through a
      run of special characters. */
  lemma {:induction false} EscapeConcat(a: string, b: string)
    requires a == [] || b == [] || !(IsSpecial(a[|a| - 1]) && IsSpecial(b[0]))
    ensures Escape(a + b) == Escape(a) + Escape(b)
    decreases |a|
  {
    if a == [] {
      assert a + b == b;
    } else if IsSpecial(a[0]) {
      var n := RunLength(a);
      var run, rest := a[..n], a[n..];
      SplitAt(a, n);
      assert rest == [] ==> a[|a| - 1] == run[n - 1];
      assert rest == [] || rest[|rest| - 1] == a[|a| - 1];
      EscapeConcat(rest, b);
      EscapeConcatRun(run, rest, b);
    } else {
      var rest := a[1..];
      SplitFirst(a);
      assert rest == [] || rest[|rest| - 1] == a[|a| - 1];
      EscapeConcat(rest, b);
      EscapeConcatPlain(a[0], rest, b);
    }
  }

  /** A special character with no special neighbour becomes its entity;
      the text around it is escaped on its own. */
  lemma IsolatedSpecial(a: string, c: char, b: string)
    requires IsSpecial(c)
    requires a == [] || !IsSpecial(a[|a| - 1])
    requires b == [] || !IsSpecial(b[0])
    ensures Escape(a + [c] + b) == Escape(a) + Entity(c) + Escape(b)
  {
    calc {
      Escape(a + [c] + b);
      { Associative(a, [c], b); }
      Escape(a + ([c] + b));
      { EscapeConcat(a, [c] + b); }
      Escape(a) + Escape([c] + b);
      { EscapeRunFront([c], b); }
      Escape(a) + (Entity(c) + Escape(b));
      { Associative(Escape(a), Entity(c), Escape(b)); }
      Escape(a) + Entity(c) + Escape(b);
    }
  }

  /** A maximal run of two or more special characters becomes the text
      "undefined", whatever its characters are. */
  lemma RunCollapses(a: string, run: string, b: string)
    requires |run| >= 2 && forall i :: 0 <= i < |run| ==> IsSpecial(run[i])
    requires a == [] || !IsSpecial(a[|a| - 1])
    requires b == [] || !IsSpecial(b[0])
    ensures Escape(a + run + b) == Escape(a) + "undefined" + Escape(b)
  {
    calc {
      Escape(a + run + b);
      { Associative(a, run, b); }
      Escape(a + (run + b));
      { EscapeConcat(a, run + b); }
      Escape(a) + Escape(run + b);
      { EscapeRunFront(run, b); }
      Escape(a) + ("undefined" + Escape(b));
      { Associative(Escape(a), "undefined", Escape(b)); }
      Escape(a) + "undefined" + Escape(b);
    }
  }

  /** Whatever the input, the output holds no '<', '>' or '"'. */
  lemma {:induction false} EscapeHasNoMarkup(s: string)
    ensures NoMarkup(Escape(s))
    decreases |s|
  {
    if s != [] {
      if IsSpecial(s[0]) {
        var n := RunLength(s);
        EscapeHasNoMarkup(s[n..]);
        assert NoMarkup(Replacement(s[0], n));
      } else {
        EscapeHasNoMarkup(s[1..]);
      }
    }
  }

  /** The escaping the code evidently intends: each special character
      replaced by its own entity, one by one. */
  function EscapeEachChar(s: string): string
  {
    if s == [] then [] else EscapeChar(s[0]) + EscapeEachChar(s[1..])
  }

  /** One character's share of the intended escaping. */
  function EscapeChar(c: char): string
  {
    if IsSpecial(c) then Entity(c) else [c]
  }

  /** What the browser shows for markup-free HTML text: the four entities
      decoded back into their characters, everything else as it is. */
  function Unescape(t: string): string
    decreases |t|
  {
    if t == [] then []
    else if |t| >= 5 && t[..5] == "&amp;" then "&" + Unescape(t[5..])
    else if |t| >= 4 && t[..4] == "&lt;" then "<" + Unescape(t[4..])
    else if |t| >= 4 && t[..4] == "&gt;" then ">" + Unescape(t[4..])
    else if |t| >= 6 && t[..6] == "&quot;" then "\"" + Unescape(t[6..])
    else [t[0]] + Unescape(t[1..])
  }

  /** Decoding the escape of one character followed by any escaped text
      gives that character back first. */
  lemma UnescapeFront(c: char, rest: string)
    ensures Unescape(EscapeChar(c) + rest) == [c] + Unescape(rest)
  {
    match c
    case '&' => UnescapeEntity("&amp;", rest);
    case '<' => UnescapeEntity("&lt;", rest);
    case '>' => UnescapeEntity("&gt;", rest);
    case '"' => UnescapeEntity("&quot;", rest);
    case _ => UnescapeFrontPlain(c, rest);
  }

  /** An entity at the front is decoded whatever follows it. */
  lemma UnescapeEntity(e: string, rest: string)
    requires e in {"&amp;", "&lt;", "&gt;", "&quot;"}
    ensures Unescape(e + rest) == (if e == "&amp;" then "&" else if e == "&lt;" then "<"
      else if e == "&gt;" then ">" else "\"") + Unescape(rest)
  {
    var t := e + rest;
    assert t[..|e|] == e && t[|e|..] == rest;
    assert t[1] == e[1];
  }

  /** The intended escaping is shown as the original text. */
  lemma {:induction false} EscapeEachCharRoundTrip(s: string)
    ensures Unescape(EscapeEachChar(s)) == s
    decreases |s|
  {
    if s != [] {
      EscapeEachCharRoundTrip(s[1..]);
      UnescapeFront(s[0], EscapeEachChar(s[1..]));
      SplitFirst(s);
    }
  }

  /** Text without '&' is shown as it is. */
  lemma {:induction false} UnescapePlain(t: string)
    requires forall i :: 0 <= i < |t| ==> t[i] != '&'
    ensures Unescape(t) == t
    decreases |t|
  {
    if t != [] {
      UnescapePlain(t[1..]);
      SplitFirst(t);
      UnescapeFrontPlain(t[0], t[1..]);
    }
  }

  lemma UnescapeFrontPlain(c: char, rest: string)
    requires c != '&'
    ensures Unescape([c] + rest) == [c] + Unescape(rest)
  {
    var t := [c] + rest;
    assert t[0] == c && t[1..] == rest;
  }

  /** The intended escaping holds no markup characters. */
  lemma {:induction false} EscapeEachCharHasNoMarkup(s: string)
    ensures NoMarkup(EscapeEachChar(s))
    decreases |s|
  {
    if s != [] {
      EscapeEachCharHasNoMarkup(s[1..]);
      var head := EscapeChar(s[0]);
      assert NoMarkup(head);
      assert EscapeEachChar(s) == head + EscapeEachChar(s[1..]);
    }
  }

  /** Counts the special characters of s. */
  function Specials(s: string): nat
  {
    if s == [] then 0 else (if IsSpecial(s[0]) then 1 else 0) + Specials(s[1..])
  }

  lemma {:induction false} SpecialsConcat(a: string, b: string)
    ensures Specials(a + b) == Specials(a) + Specials(b)
    decreases |a|
  {
    if a == [] {
      assert a + b == b;
    } else {
      assert (a + b)[1..] == a[1..] + b;
      SpecialsConcat(a[1..], b);
    }
  }

  lemma {:induction false} SpecialsOfRun(run: string)
    requires forall i :: 0 <= i < |run| ==> IsSpecial(run[i])
    ensures Specials(run) == |run|
    decreases |run|
  {
    if run != [] {
      SpecialsOfRun(run[1..]);
    }
  }

  /** The intended escaping writes one '&' per special character. */
  lemma {:induction false} EachCharAmpersands(s: string)
    ensures Ampersands(EscapeEachChar(s)) == Specials(s)
    decreases |s|
  {
    if s != [] {
      EachCharAmpersands(s[1..]);
      var head := EscapeChar(s[0]);
      assert EscapeEachChar(s) == head + EscapeEachChar(s[1..]);
      AmpersandsConcat(head, EscapeEachChar(s[1..]));
      if IsSpecial(s[0]) {
        EntityAmpersand(s[0]);
      }
    }
  }

  /** Each entity holds exactly one '&'; "undefined" holds none. */
  lemma EntityAmpersand(c: char)
    requires IsSpecial(c)
    ensures Ampersands(Entity(c)) == 1
    ensures Ampersands("undefined") == 0
  {
    var e := Entity(c);
    assert e == ['&'] + e[1..];
    NoAmpersands(e[1..]);
    NoAmpersands("undefined");
  }

  lemma {:induction false} NoAmpersands(t: string)
    requires forall i :: 0 <= i < |t| ==> t[i] != '&'
    ensures Ampersands(t) == 0
    decreases |t|
  {
    if t != [] {
      NoAmpersands(t[1..]);
    }
  }

  /** Counts the '&' characters of t. */
  function Ampersands(t: string): nat
  {
    if t == [] then 0 else (if t[0] == '&' then 1 else 0) + Ampersands(t[1..])
  }

  lemma {:induction false} AmpersandsConcat(a: string, b: string)
    ensures Ampersands(a + b) == Ampersands(a) + Ampersands(b)
    decreases |a|
  {
    if a == [] {
      assert a + b == b;
    } else {
      assert (a + b)[1..] == a[1..] + b;
      AmpersandsConcat(a[1..], b);
    }
  }

  /** The code as written writes at most one '&' per special character, and
      fewer as soon as two special characters stand together. */
  lemma {:induction false} EscapeAmpersands(s: string)
    ensures Ampersands(Escape(s)) <= Specials(s)
    ensures !SpecialsIsolated(s) ==> Ampersands(Escape(s)) < Specials(s)
    decreases |s|
  {
    if s != [] {
      if IsSpecial(s[0]) {
        var n := RunLength(s);
        EscapeAmpersands(s[n..]);
        RunAmpersands(s);
        if n == 1 {
          PairAfterFront(s);
        }
      } else {
        EscapeAmpersands(s[1..]);
        SplitFirst(s);
        SpecialsConcat([s[0]], s[1..]);
        AmpersandsConcat([s[0]], Escape(s[1..]));
        PairAfterFront(s);
      }
    }
  }

  /** The counts across the run at the front of s. */
  lemma RunAmpersands(s: string)
    requires s != [] && IsSpecial(s[0])
    ensures var n := RunLength(s);
      && Ampersands(Escape(s)) == (if n == 1 then 1 else 0) + Ampersands(Escape(s[n..]))
      && Specials(s) == n + Specials(s[n..])
  {
    var n := RunLength(s);
    SplitAt(s, n);
    SpecialsConcat(s[..n], s[n..]);
    SpecialsOfRun(s[..n]);
    AmpersandsConcat(Replacement(s[0], n), Escape(s[n..]));
    EntityAmpersand(s[0]);
  }

  /** When the first two characters are not both special, an adjacent pair
      of special characters in s lies in s[1..]. */
  lemma PairAfterFront(s: string)
    requires s != []
    requires |s| == 1 || !(IsSpecial(s[0]) && IsSpecial(s[1]))
    ensures !SpecialsIsolated(s) ==> !SpecialsIsolated(s[1..])
  {
    if !SpecialsIsolated(s) {
      var i :| 0 <= i < |s| - 1 && IsSpecial(s[i]) && IsSpecial(s[i + 1]);
      assert s[1..][i - 1] == s[i] && s[1..][i] == s[i + 1];
    }
  }

  /** The code agrees with the intended escaping exactly on strings whose
      special characters all stand alone. */
  lemma {:induction false} EscapeAgreesIff(s: string)
    ensures Escape(s) == EscapeEachChar(s) <==> SpecialsIsolated(s)
    decreases |s|
  {
    if SpecialsIsolated(s) {
      if s != [] {
        assert SpecialsIsolated(s[1..]) by {
          forall i | 0 <= i < |s[1..]| - 1
            ensures !(IsSpecial(s[1..][i]) && IsSpecial(s[1..][i + 1]))
          {
            assert s[1..][i] == s[i + 1] && s[1..][i + 1] == s[i + 2];
          }
        }
        EscapeAgreesIff(s[1..]);
        if IsSpecial(s[0]) {
          assert RunLength(s) == 1 by {
            assert |s| > 1 ==> !IsSpecial(s[1]);
            if |s| > 1 {
              assert RunLength(s[1..]) == 0;
            }
          }
        }
      }
    } else {
      EscapeAmpersands(s);
      EachCharAmpersands(s);
    }
  }

  /** The discrepancy on the smallest input: two '<' in a row are shown as
      the word "undefined", while the intended escaping shows them as they
      are. */
  lemma DoubleLessThan()
    ensures Escape("<<") == "undefined"
    ensures Unescape(Escape("<<")) == "undefined" != "<<"
    ensures Unescape(EscapeEachChar("<<")) == "<<"
  {
    EscapeRunFront("<<", []);
    assert "<<" + [] == "<<";
    UnescapePlain("undefined");
    EscapeEachCharRoundTrip("<<");
  }

  /** A lone '<' between letters becomes "&lt;". */
  lemma LoneLessThan()
    ensures Escape("a<b") == "a&lt;b"
  {
    calc {
      Escape("a<b");
      { assert "a<b" == "a" + ['<'] + "b"; }
      Escape("a" + ['<'] + "b");
      { IsolatedSpecial("a", '<', "b"); }
      Escape("a") + "&lt;" + Escape("b");
      { EscapePlain("a"); EscapePlain("b"); }
      "a" + "&lt;" + "b";
    }
  }

  /** The pair "<>" between letters becomes "undefined". */
  lemma AdjacentPair()
    ensures Escape("x<>y") == "xundefinedy"
  {
    calc {
      Escape("x<>y");
      { assert "x<>y" == "x" + "<>" + "y"; }
      Escape("x" + "<>" + "y");
      { RunCollapses("x", "<>", "y"); }
      Escape("x") + "undefined" + Escape("y");
      { EscapePlain("x"); EscapePlain("y"); }
      "x" + "undefined" + "y";
    }
  }
}
