/// `quoted_token_parser`: splits a dotted identifier such as `schema."na.me"` into its parts.
/// A dot outside double quotes separates parts, the quotes themselves are dropped, and inside
/// quotes a doubled `""` stands for one literal `"`. Input without any `"` takes a fast path
/// that splits on every dot.
module TokenParser {

  const Dot: char := '.'
  const Quote: char := '"'

  /** Extends the first part of a non-empty list of parts by `t` at its front. */
  function Glue(t: string, r: seq<string>): (g: seq<string>)
    requires |r| >= 1
    ensures |g| == |r| && g[0] == t + r[0] && g[1..] == r[1..]
  {
    [t + r[0]] + r[1..]
  }

  lemma GlueEmpty(r: seq<string>)
    requires |r| >= 1
    ensures Glue("", r) == r
  {
    assert "" + r[0] == r[0];
    assert [r[0]] + r[1..] == r;
  }

  lemma GlueTwice(a: string, b: string, r: seq<string>)
    requires |r| >= 1
    ensures Glue(a, Glue(b, r)) == Glue(a + b, r)
  {
    assert a + (b + r[0]) == a + b + r[0];
  }

  // ---------------------------------------------------------------------------------
  // The fast path: splitting on a separator, and its inverse

  /** `s.split(sep)`: the stretches of `s` between separators, always at least one. */
  function Split(s: string, sep: char): (r: seq<string>)
    ensures |r| >= 1
    decreases |s|
  {
    if s == [] then [""]
    else if s[0] == sep then [""] + Split(s[1..], sep)
    else Glue([s[0]], Split(s[1..], sep))
  }

  /** `sep.join(parts)`. */
  function Join(parts: seq<string>, sep: char): (s: string)
    requires |parts| >= 1
    ensures |s| >= |parts| - 1
    decreases |parts|
  {
    if |parts| == 1 then parts[0] else parts[0] + [sep] + Join(parts[1..], sep)
  }

  /** No part that `Split` returns holds the separator. */
  lemma {:induction false} SplitPartsClean(s: string, sep: char)
    ensures forall i :: 0 <= i < |Split(s, sep)| ==> sep !in Split(s, sep)[i]
    decreases |s|
  {
    if s != [] {
      SplitPartsClean(s[1..], sep);
      var r := Split(s[1..], sep);
      if s[0] != sep {
        var g := Glue([s[0]], r);
        forall i | 0 <= i < |g| ensures sep !in g[i] {
          if i > 0 {
            assert g[i] == r[i];
          }
        }
      }
    }
  }

  /** Joining the parts of a split gives the input back. */
  lemma {:induction false} JoinSplit(s: string, sep: char)
    ensures Join(Split(s, sep), sep) == s
    decreases |s|
  {
    if s != [] {
      JoinSplit(s[1..], sep);
      var r := Split(s[1..], sep);
      if s[0] != sep {
        JoinGlue([s[0]], r, sep);
      }
    }
  }

  /** Gluing a prefix onto the first part prefixes the joined string. */
  lemma JoinGlue(t: string, r: seq<string>, sep: char)
    requires |r| >= 1
    ensures Join(Glue(t, r), sep) == t + Join(r, sep)
  {
    var g := Glue(t, r);
    if |r| > 1 {
      assert g[1..] == r[1..];
    }
  }

  /** Splitting what was joined from separator-free parts gives those parts back. */
  lemma {:induction false} SplitJoin(parts: seq<string>, sep: char)
    requires |parts| >= 1 && forall i :: 0 <= i < |parts| ==> sep !in parts[i]
    ensures Split(Join(parts, sep), sep) == parts
    decreases |parts|
  {
    if |parts| == 1 {
      SplitClean(parts[0], [], sep);
      assert parts[0] + [] == parts[0];
      assert parts == [parts[0]];
    } else {
      var rest := Join(parts[1..], sep);
      SplitJoin(parts[1..], sep);
      SplitClean(parts[0], [sep] + rest, sep);
      assert parts[0] + [sep] + rest == parts[0] + ([sep] + rest);
      assert ([sep] + rest)[0] == sep && ([sep] + rest)[1..] == rest;
      assert Split([sep] + rest, sep) == [""] + parts[1..];
      assert parts[0] + "" == parts[0];
      assert [parts[0]] + parts[1..] == parts;
    }
  }

  /** A separator-free stretch in front of `w` only extends the first part of `w`'s split. */
  lemma {:induction false} SplitClean(t: string, w: string, sep: char)
    requires sep !in t
    ensures Split(t + w, sep) == Glue(t, Split(w, sep))
    decreases |t|
  {
    if t == [] {
      assert t + w == w;
      GlueEmpty(Split(w, sep));
    } else {
      SplitClean(t[1..], w, sep);
      assert (t + w)[0] == t[0] && (t + w)[1..] == t[1..] + w;
      GlueTwice([t[0]], t[1..], Split(w, sep));
      assert [t[0]] + t[1..] == t;
    }
  }

  // ---------------------------------------------------------------------------------
  // The quote-aware scan

  /** The parts of `v` when the scan starts inside quotes (`quoted`) or outside them. A `"`
      followed by another `"` inside quotes is one literal `"`; any other `"` enters or leaves
      quotes; a dot outside quotes starts a new part; every other character extends the
      current part. */
  function Scan(v: string, quoted: bool): (r: seq<string>)
    ensures |r| >= 1
    decreases |v|
  {
    if v == [] then [""]
    else if v[0] == Quote then
      if quoted && |v| > 1 && v[1] == Quote then Glue([Quote], Scan(v[2..], true))
      else Scan(v[1..], !quoted)
    else if v[0] == Dot && !quoted then [""] + Scan(v[1..], false)
    else Glue([v[0]], Scan(v[1..], quoted))
  }

  /** `quoted_token_parser(value)`: the fast path when there is no quote, the scan otherwise. */
  function QuotedTokens(value: string): (r: seq<string>)
    ensures |r| >= 1
  {
    if Quote !in value then Split(value, Dot) else Scan(value, false)
  }

  /** Without quotes the scan is the plain split, so the fast path changes no answer. */
  lemma {:induction false} FastPathAgrees(v: string)
    requires Quote !in v
    ensures Scan(v, false) == Split(v, Dot)
    decreases |v|
  {
    if v != [] {
      FastPathAgrees(v[1..]);
    }
  }

  /** The answer for any value is the scan's. */
  lemma TokensAreScan(value: string)
    ensures QuotedTokens(value) == Scan(value, false)
  {
    if Quote !in value {
      FastPathAgrees(value);
    }
  }

  /** A name with no dot and no quote is a single part, itself. */
  lemma SingleName(v: string)
    requires Dot !in v && Quote !in v
    ensures QuotedTokens(v) == [v]
  {
    SplitJoin([v], Dot);
  }

  /** Without quotes, the parts are the dot-separated stretches and joining them with dots
      gives the input back. */
  lemma UnquotedRoundTrip(v: string)
    requires Quote !in v
    ensures Join(QuotedTokens(v), Dot) == v
    ensures forall i :: 0 <= i < |QuotedTokens(v)| ==> Dot !in QuotedTokens(v)[i]
  {
    JoinSplit(v, Dot);
    SplitPartsClean(v, Dot);
  }

  // ---------------------------------------------------------------------------------
  // Writing parts out and reading them back

  /** A part as written in a dotted identifier: bare, or between quotes with its own quotes
      doubled. */
  datatype Part = Bare(text: string) | Quoted(text: string)

  /** A bare part must not hold a dot or a quote; a quoted part may hold anything. */
  predicate Writable(p: Part)
  {
    p.Bare? ==> Dot !in p.text && Quote !in p.text
  }

  /** `t` with every `"` doubled. */
  function Escape(t: string): (e: string)
    ensures |e| >= |t|
  {
    if t == [] then [] else (if t[0] == Quote then [Quote, Quote] else [t[0]]) + Escape(t[1..])
  }

  function Form(p: Part): string
  {
    match p
    case Bare(t) => t
    case Quoted(t) => [Quote] + Escape(t) + [Quote]
  }

  function Render(ps: seq<Part>): (s: string)
    requires |ps| >= 1
    decreases |ps|
  {
    if |ps| == 1 then Form(ps[0]) else Form(ps[0]) + [Dot] + Render(ps[1..])
  }

  function Texts(ps: seq<Part>): (ts: seq<string>)
    ensures |ts| == |ps| && forall i :: 0 <= i < |ps| ==> ts[i] == ps[i].text
  {
    seq(|ps|, i requires 0 <= i < |ps| => ps[i].text)
  }

  /** Inside quotes, a doubled quote stands for one quote of the current part. */
  lemma ScanDoubled(rest: string)
    ensures Scan([Quote, Quote] + rest, true) == Glue([Quote], Scan(rest, true))
  {
    var v := [Quote, Quote] + rest;
    assert v[2..] == rest;
  }

  /** A character other than a quote, and other than a dot outside quotes, extends the
      current part. */
  lemma ScanPlain(c: char, rest: string, quoted: bool)
    requires c != Quote && (quoted || c != Dot)
    ensures Scan([c] + rest, quoted) == Glue([c], Scan(rest, quoted))
  {
    var v := [c] + rest;
    assert v[1..] == rest;
  }

  /** A closing quote not followed by another quote leaves the quotes. */
  lemma ScanClosing(w: string)
    requires w == [] || w[0] != Quote
    ensures Scan([Quote] + w, true) == Scan(w, false)
  {
    var v := [Quote] + w;
    assert v[1..] == w;
  }

  /** Inside quotes, the escaped form of the first character contributes that character. */
  lemma ScanEscapedHead(t: string, w: string)
    requires t != []
    ensures Scan(Escape(t) + [Quote] + w, true) == Glue([t[0]], Scan(Escape(t[1..]) + [Quote] + w, true))
  {
    var rest := Escape(t[1..]) + [Quote] + w;
    if t[0] == Quote {
      assert Escape(t) + [Quote] + w == [Quote, Quote] + rest;
      ScanDoubled(rest);
    } else {
      assert Escape(t) + [Quote] + w == [t[0]] + rest;
      ScanPlain(t[0], rest, true);
    }
  }

  /** Inside quotes, an escaped text followed by the closing quote reads back as that text,
      and the scan continues outside quotes, provided no quote follows the closing one. */
  lemma {:induction false} ScanEscaped(t: string, w: string)
    requires w == [] || w[0] != Quote
    ensures Scan(Escape(t) + [Quote] + w, true) == Glue(t, Scan(w, false))
    decreases |t|
  {
    if t == [] {
      assert Escape(t) + [Quote] + w == [Quote] + w;
      ScanClosing(w);
      GlueEmpty(Scan(w, false));
    } else {
      ScanEscapedHead(t, w);
      ScanEscaped(t[1..], w);
      GlueTwice([t[0]], t[1..], Scan(w, false));
      assert [t[0]] + t[1..] == t;
    }
  }

  /** Outside quotes, a stretch with no dot and no quote extends the current part. */
  lemma {:induction false} ScanBare(t: string, w: string)
    requires Dot !in t && Quote !in t
    ensures Scan(t + w, false) == Glue(t, Scan(w, false))
    decreases |t|
  {
    if t == [] {
      assert t + w == w;
      GlueEmpty(Scan(w, false));
    } else {
      ScanBare(t[1..], w);
      assert (t + w)[0] == t[0] && (t + w)[1..] == t[1..] + w;
      GlueTwice([t[0]], t[1..], Scan(w, false));
      assert [t[0]] + t[1..] == t;
    }
  }

  /** A written part followed by nothing or by a dot reads back as its text. */
  lemma ScanForm(p: Part, w: string)
    requires Writable(p) && (w == [] || w[0] == Dot)
    ensures Scan(Form(p) + w, false) == Glue(p.text, Scan(w, false))
  {
    match p
    case Bare(t) => ScanBare(t, w);
    case Quoted(t) =>
      var v := [Quote] + Escape(t) + [Quote] + w;
      assert v[1..] == Escape(t) + [Quote] + w;
      ScanEscaped(t, w);
  }

  /** Reading back a written identifier gives the parts' texts. */
  lemma {:induction false} ScanRender(ps: seq<Part>)
    requires |ps| >= 1 && forall i :: 0 <= i < |ps| ==> Writable(ps[i])
    ensures Scan(Render(ps), false) == Texts(ps)
    decreases |ps|
  {
    if |ps| == 1 {
      ScanForm(ps[0], []);
      assert Form(ps[0]) + [] == Form(ps[0]);
      assert ps[0].text + "" == ps[0].text;
    } else {
      var rest := Render(ps[1..]);
      ScanRender(ps[1..]);
      ScanForm(ps[0], [Dot] + rest);
      assert Form(ps[0]) + [Dot] + rest == Form(ps[0]) + ([Dot] + rest);
      assert ([Dot] + rest)[0] == Dot && ([Dot] + rest)[1..] == rest;
      assert Scan([Dot] + rest, false) == [""] + Texts(ps[1..]);
      assert ps[0].text + "" == ps[0].text;
      assert Texts(ps) == [ps[0].text] + Texts(ps[1..]);
    }
  }

  /** Round trip: `quoted_token_parser` of parts written bare or quoted gives their texts. */
  lemma ParseRender(ps: seq<Part>)
    requires |ps| >= 1 && forall i :: 0 <= i < |ps| ==> Writable(ps[i])
    ensures QuotedTokens(Render(ps)) == Texts(ps)
  {
    TokensAreScan(Render(ps));
    ScanRender(ps);
  }

  /** Escaping works piece by piece. */
  lemma {:induction false} EscapeAppend(a: string, b: string)
    ensures Escape(a + b) == Escape(a) + Escape(b)
    decreases |a|
  {
    if a == [] {
      assert a + b == b;
    } else {
      EscapeAppend(a[1..], b);
      var h := if a[0] == Quote then [Quote, Quote] else [a[0]];
      assert (a + b)[0] == a[0] && (a + b)[1..] == a[1..] + b;
      assert Escape(a + b) == h + Escape(a[1..] + b);
      assert Escape(a) == h + Escape(a[1..]);
    }
  }

  /** Text without quotes escapes to itself. */
  lemma {:induction false} EscapeClean(t: string)
    requires Quote !in t
    ensures Escape(t) == t
    decreases |t|
  {
    if t != [] {
      EscapeClean(t[1..]);
      assert [t[0]] + t[1..] == t;
    }
  }

  /** One quote between quote-free stretches is doubled and nothing else changes. */
  lemma EscapeOneQuote(a: string, b: string)
    requires Quote !in a && Quote !in b
    ensures Escape(a + [Quote] + b) == a + [Quote, Quote] + b
  {
    EscapeAppend(a + [Quote], b);
    EscapeAppend(a, [Quote]);
    EscapeClean(a);
    EscapeClean(b);
    assert [Quote][1..] == [];
    assert Escape([Quote]) == [Quote, Quote] + Escape([]);
  }

  /** Two written parts around a dot read back as their texts. */
  lemma ParseTwo(p: Part, q: Part)
    requires Writable(p) && Writable(q)
    ensures QuotedTokens(Form(p) + [Dot] + Form(q)) == [p.text, q.text]
  {
    var ps := [p, q];
    ParseRender(ps);
    assert ps[1..] == [q];
  }

  /** Two bare names around a dot. */
  lemma BareBare(a: string, b: string)
    requires Writable(Bare(a)) && Writable(Bare(b))
    ensures QuotedTokens(a + [Dot] + b) == [a, b]
  {
    ParseTwo(Bare(a), Bare(b));
  }

  /** A quoted name, a dot, a bare name. */
  lemma QuotedBare(t: string, b: string)
    requires Writable(Bare(b))
    ensures QuotedTokens([Quote] + Escape(t) + [Quote, Dot] + b) == [t, b]
  {
    ParseTwo(Quoted(t), Bare(b));
    assert [Quote] + Escape(t) + [Quote, Dot] + b == [Quote] + Escape(t) + [Quote] + [Dot] + b;
  }

  /** A bare name, a dot, a quoted name. */
  lemma BareQuoted(a: string, t: string)
    requires Writable(Bare(a))
    ensures QuotedTokens(a + [Dot, Quote] + Escape(t) + [Quote]) == [a, t]
  {
    ParseTwo(Bare(a), Quoted(t));
    assert a + [Dot, Quote] + Escape(t) + [Quote] == a + [Dot] + ([Quote] + Escape(t) + [Quote]);
  }

  /** A quoted name holding one doubled quote, a dot, a bare name. */
  lemma QuotedWithQuoteBare(x: string, y: string, b: string)
    requires Quote !in x && Quote !in y && Writable(Bare(b))
    ensures QuotedTokens([Quote] + x + [Quote, Quote] + y + [Quote, Dot] + b) == [x + [Quote] + y, b]
  {
    EscapeOneQuote(x, y);
    QuotedBare(x + [Quote] + y, b);
    assert [Quote] + (x + [Quote, Quote] + y) + [Quote, Dot] + b == [Quote] + x + [Quote, Quote] + y + [Quote, Dot] + b;
  }

  /** A bare name, a dot, a quoted name without quotes of its own. */
  lemma BareQuotedClean(a: string, t: string)
    requires Writable(Bare(a)) && Quote !in t
    ensures QuotedTokens(a + [Dot, Quote] + t + [Quote]) == [a, t]
  {
    EscapeClean(t);
    BareQuoted(a, t);
  }

  /** A single quoted name. */
  lemma QuotedOnly(t: string)
    ensures QuotedTokens([Quote] + Escape(t) + [Quote]) == [t]
  {
    ParseRender([Quoted(t)]);
  }

  // ---------------------------------------------------------------------------------
  // Worked examples

  /** `name` is one part. */
  lemma ExampleSingle()
    ensures QuotedTokens("name") == ["name"]
  {
    SingleName("name");
  }

  /** `schema.name` splits at the dot. */
  lemma ExampleDotted()
    ensures QuotedTokens("schema.name") == ["schema", "name"]
  {
    BareBare("schema", "name");
    assert "schema" + [Dot] + "name" == "schema.name";
  }

  /** `"Sch""ema".name` gives `Sch"ema` and `name`. */
  lemma ExampleQuotedLeftWithQuote()
    ensures QuotedTokens("\"Sch\"\"ema\".name") == ["Sch\"ema", "name"]
  {
    QuotedWithQuoteBare("Sch", "ema", "name");
    assert "Sch" + [Quote] + "ema" == "Sch\"ema";
    assert [Quote] + "Sch" + [Quote, Quote] + "ema" + [Quote, Dot] + "name" == "\"Sch\"\"ema\".name";
  }

  /** `schema."na.me"` keeps the quoted dot. */
  lemma ExampleQuotedRightWithDot()
    ensures QuotedTokens("schema.\"na.me\"") == ["schema", "na.me"]
  {
    BareQuotedClean("schema", "na.me");
    assert "schema" + [Dot, Quote] + "na.me" + [Quote] == "schema.\"na.me\"";
  }

  /** `"""name"` gives `"name`: the doubled quote right after the opening one is literal. */
  lemma ExampleQuotedLeftEdge()
    ensures QuotedTokens("\"\"\"name\"") == ["\"name"]
  {
    EscapeOneQuote("", "name");
    assert [] + [Quote] + "name" == "\"name";
    QuotedOnly("\"name");
    assert [Quote] + ([] + [Quote, Quote] + "name") + [Quote] == "\"\"\"name\"";
  }

  // ---------------------------------------------------------------------------------
  // The parser as a loop over the characters

  /** The parts built so far, with the scan of the rest glued onto the last one. */
  function Stitch(acc: seq<string>, r: seq<string>): seq<string>
    requires |acc| >= 1 && |r| >= 1
  {
    acc[..|acc| - 1] + Glue(acc[|acc| - 1], r)
  }

  lemma StitchStart(r: seq<string>)
    requires |r| >= 1
    ensures Stitch([""], r) == r
  {
    assert [""][..0] == [];
    GlueEmpty(r);
  }

  lemma StitchExtend(acc: seq<string>, c: char, r: seq<string>)
    requires |acc| >= 1 && |r| >= 1
    ensures Stitch(acc[|acc| - 1 := acc[|acc| - 1] + [c]], r) == Stitch(acc, Glue([c], r))
  {
    var n := |acc| - 1;
    assert acc[n := acc[n] + [c]][..n] == acc[..n];
    assert acc[n] + [c] + r[0] == acc[n] + ([c] + r[0]);
  }

  lemma StitchNew(acc: seq<string>, r: seq<string>)
    requires |acc| >= 1 && |r| >= 1
    ensures Stitch(acc + [""], r) == Stitch(acc, [""] + r)
  {
    var n := |acc|;
    assert (acc + [""])[..n] == acc;
    assert (acc + [""])[n] == "";
    GlueEmpty(r);
    assert acc[n - 1] + "" == acc[n - 1];
    assert acc[..n - 1] + [acc[n - 1]] == acc;
  }

  lemma StitchEnd(acc: seq<string>)
    requires |acc| >= 1
    ensures Stitch(acc, [""]) == acc
  {
    var n := |acc| - 1;
    assert acc[n] + "" == acc[n];
    assert acc[..n] + [acc[n]] == acc;
  }

  /** One character step of the loop: whatever it appends, the parts built so far stitched to
      the scan of what is left stay the same. */
  lemma ScanStep(v: string, idx: nat, quoted: bool, acc: seq<string>)
    requires idx < |v| && |acc| >= 1
    ensures v[idx] == Quote && quoted && idx + 1 < |v| && v[idx + 1] == Quote ==>
      Stitch(acc, Scan(v[idx..], quoted)) ==
      Stitch(acc[|acc| - 1 := acc[|acc| - 1] + [Quote]], Scan(v[idx + 2..], true))
    ensures v[idx] == Quote && !(quoted && idx + 1 < |v| && v[idx + 1] == Quote) ==>
      Stitch(acc, Scan(v[idx..], quoted)) == Stitch(acc, Scan(v[idx + 1..], !quoted))
    ensures v[idx] == Dot && !quoted ==>
      Stitch(acc, Scan(v[idx..], quoted)) == Stitch(acc + [""], Scan(v[idx + 1..], false))
    ensures v[idx] != Quote && !(v[idx] == Dot && !quoted) ==>
      Stitch(acc, Scan(v[idx..], quoted)) ==
      Stitch(acc[|acc| - 1 := acc[|acc| - 1] + [v[idx]]], Scan(v[idx + 1..], quoted))
  {
    var w := v[idx..];
    assert w[0] == v[idx] && w[1..] == v[idx + 1..];
    if |w| > 1 {
      assert w[1] == v[idx + 1] && w[2..] == v[idx + 2..];
      StitchExtend(acc, Quote, Scan(v[idx + 2..], true));
    }
    StitchNew(acc, Scan(v[idx + 1..], false));
    StitchExtend(acc, v[idx], Scan(v[idx + 1..], quoted));
  }

  /** `quoted_token_parser` as a loop: the fast path, or one pass over the characters with a
      quote state, the parts under construction, and a look-ahead for doubled quotes. This
      structure is assumed; the postcondition ties it to `QuotedTokens`. */
  method QuotedTokenParser(value: string) returns (tokens: seq<string>)
    ensures tokens == QuotedTokens(value)
  {
    if Quote !in value {
      return Split(value, Dot);
    }
    var quoted := false;
    var result: seq<string> := [""];
    var idx := 0;
    StitchStart(Scan(value, false));
    while idx < |value|
      invariant 0 <= idx <= |value| && |result| >= 1
      invariant Stitch(result, Scan(value[idx..], quoted)) == Scan(value, false)
      decreases |value| - idx
    {
      var ch := value[idx];
      ScanStep(value, idx, quoted, result);
      if ch == Quote {
        if quoted && idx < |value| - 1 && value[idx + 1] == Quote {
          result := result[|result| - 1 := result[|result| - 1] + [Quote]];
          idx := idx + 1;
        } else {
          quoted := !quoted;
        }
      } else if ch == Dot && !quoted {
        result := result + [""];
      } else {
        result := result[|result| - 1 := result[|result| - 1] + [ch]];
      }
      idx := idx + 1;
    }
    assert value[idx..] == [];
    StitchEnd(result);
    tokens := result;
  }
}
