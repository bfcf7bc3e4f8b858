/** What the bouncer's scanner (ground-station/src/egress_json.cpp) makes of text that is not a whole page: a body cut
    off anywhere is refused or read as what the whole body says, and an escaped string is read as its value. */
module TruncatedText {
  import opened Words
  import opened EgressJson

  // ---- More text behind -----------------------------------------------------------------------------------------

  lemma {:induction false} SkipWsGrows(p: string, q: string)
    requires SkipWs(p) != []
    ensures SkipWs(p + q) == SkipWs(p) + q
    decreases |p|
  {
    if IsWs(p[0]) {
      assert (p + q)[1..] == p[1..] + q;
      SkipWsGrows(p[1..], q);
    }
  }

  lemma {:induction false} ObjectEndGrows(p: string, q: string, depth: int, inString: bool)
    requires ObjectEnd(p, depth, inString).Some?
    ensures ObjectEnd(p + q, depth, inString) == ObjectEnd(p, depth, inString)
    decreases |p|
  {
    hide ObjectEnd;
    ObjectEndOfNothing();
    var s := p + q;
    ObjectEndStep(p, depth, inString);
    ObjectEndStep(s, depth, inString);
    assert s[0] == p[0] && s[1..] == p[1..] + q;
    if inString {
      if p[0] == '\\' && |p| > 1 {
        assert s[1..][1..] == p[1..][1..] + q;
        ObjectEndGrows(p[1..][1..], q, depth, true);
      } else {
        ObjectEndGrows(p[1..], q, depth, p[0] != '"');
      }
    } else if p[0] == '"' {
      ObjectEndGrows(p[1..], q, depth, true);
    } else if p[0] == '{' {
      ObjectEndGrows(p[1..], q, depth + 1, false);
    } else if p[0] != '}' || depth - 1 != 0 {
      ObjectEndGrows(p[1..], q, if p[0] == '}' then depth - 1 else depth, false);
    }
  }

  lemma {:induction false} ParseItemsGrows(p: string, q: string, max: nat)
    requires max > 0 && ParseItems(p, max).Some?
    ensures ParseItems(p + q, max) == ParseItems(p, max)
    decreases max
  {
    hide SkipWs, ObjectEnd, ParseObject;
    var t := SkipWs(p);
    SkipWsGrows(p, q);
    var n := ObjectEnd(t, 0, false).value;
    ObjectEndGrows(t, q, 0, false);
    assert (t + q)[..n] == t[..n] && (t + q)[n..] == t[n..] + q;
    if max > 1 {
      var u := SkipWs(t[n..]);
      SkipWsGrows(t[n..], q);
      assert (u + q)[1..] == u[1..] + q;
      if u[0] == ',' {
        ParseItemsGrows(u[1..], q, max - 1);
      }
    }
  }

  /** A response that was cut off is never misread: if any part of it from the start is accepted, the whole is accepted and
      says the same. */
  lemma CutNeverMisread(whole: string, n: nat, max: nat)
    requires n <= |whole| && Parse(whole[..n], max).Some?
    ensures Parse(whole, max) == Parse(whole[..n], max)
  {
    var p, q := whole[..n], whole[n..];
    assert whole == p + q;
    hide SkipWs, ParseItems;
    var t := SkipWs(p);
    SkipWsGrows(p, q);
    assert (t + q)[1..] == t[1..] + q;
    var u := SkipWs(t[1..]);
    if u == [] {
      NoItems(max);
    } else {
      SkipWsGrows(t[1..], q);
      if u[0] != ']' {
        ParseItemsGrows(u, q, max);
      }
    }
  }

  lemma NoItems(max: nat)
    requires max > 0
    ensures ParseItems([], max) == None
  {
  }

  // ---- Escapes ----------------------------------------------------------------------------------------------------

  /** A string literal's text for v: quotes and backslashes behind a backslash. */
  function Escaped(v: string): string {
    if v == [] then []
    else (if v[0] == '"' || v[0] == '\\' then ['\\', v[0]] else [v[0]]) + Escaped(v[1..])
  }

  lemma EscapedStep(v: string, s: string)
    requires v != []
    ensures var t, rest := Escaped(v) + "\"" + s, Escaped(v[1..]) + "\"" + s;
            if v[0] == '"' || v[0] == '\\'
            then |t| > 1 && t[0] == '\\' && t[1] == v[0] && t[2..] == rest && |Escaped(v)| == 2 + |Escaped(v[1..])|
            else t[0] == v[0] && t[1..] == rest && |Escaped(v)| == 1 + |Escaped(v[1..])|
  {
    var head := if v[0] == '"' || v[0] == '\\' then ['\\', v[0]] else [v[0]];
    assert Escaped(v) + "\"" + s == head + (Escaped(v[1..]) + "\"" + s);
  }

  lemma ClosingQuote(s: string)
    ensures Escaped([]) + "\"" + s == "\"" + s && ("\"" + s)[1..] == s
  {
  }

  /** Whatever a string holds, quotes and backslashes included: its escaped text is read as the string and left right
      behind the closing quote, is passed over as a whole, and hides its braces from the search for the object's end. */
  lemma {:induction false} EscapedIsRead(v: string, s: string, depth: int)
    ensures var t := Escaped(v) + "\"" + s;
            && ScanString(t) == Some((v, s)) && SkipString(t) == s
            && ObjectEnd(t, depth, true) == Plus(|Escaped(v)| + 1, ObjectEnd(s, depth, false))
    decreases |v|
  {
    var t := Escaped(v) + "\"" + s;
    if v == [] {
      ClosingQuote(s);
    } else {
      EscapedStep(v, s);
      EscapedIsRead(v[1..], s, depth);
      hide Escaped;
      assert [v[0]] + v[1..] == v;
      PlusPlus(if v[0] == '"' || v[0] == '\\' then 2 else 1, |Escaped(v[1..])| + 1, ObjectEnd(s, depth, false));
    }
  }

  lemma PlusPlus(m: nat, n: nat, r: Option<nat>)
    ensures Plus(m, Plus(n, r)) == Plus(m + n, r)
  {
  }
}
