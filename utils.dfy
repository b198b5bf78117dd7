/**
 * Query-parameter normalisation (binance4py/utils.py): create_query_dict and
 * the trimming step of number_to_string.
 *
 * A number reaches number_to_string already rendered by "{:f}"; the model starts
 * from that fixed-point text. A list reaches create_query_dict as its str() text.
 */
module Utils {

  // ---------------------------------------------------------------------------
  // Character-level helpers: Python's str.rstrip(c) and str.replace
  // ---------------------------------------------------------------------------

  /** str.rstrip(c) for a one-character argument: drop every trailing c. */
  function RStrip(s: string, c: char): (r: string)
    ensures r <= s
    ensures r == [] || r[|r| - 1] != c
    ensures forall i :: |r| <= i < |s| ==> s[i] == c
    decreases |s|
  {
    if |s| > 0 && s[|s| - 1] == c then RStrip(s[..|s| - 1], c) else s
  }

  /** Stripping a concatenation strips the tail first, and reaches into the head only if the tail vanishes. */
  lemma {:induction false} RStripConcat(a: string, b: string, c: char)
    ensures RStrip(a + b, c) == if RStrip(b, c) == [] then RStrip(a, c) else a + RStrip(b, c)
    decreases |b|
  {
    if b == [] {
      assert a + b == a;
    } else if b[|b| - 1] == c {
      assert (a + b)[..|a + b| - 1] == a + b[..|b| - 1];
      RStripConcat(a, b[..|b| - 1], c);
    } else {
      assert RStrip(b, c) == b;
    }
  }

  /** str.replace(a, b) for one-character arguments: every a becomes b. */
  function Replace(s: string, a: char, b: char): (r: string)
    ensures |r| == |s|
    ensures forall i :: 0 <= i < |s| ==> r[i] == if s[i] == a then b else s[i]
    ensures a != b ==> a !in r
    ensures forall c :: c != a && c != b ==> multiset(r)[c] == multiset(s)[c]
  {
    if s == [] then []
    else
      assert s == [s[0]] + s[1..];
      [if s[0] == a then b else s[0]] + Replace(s[1..], a, b)
  }

  /** str.replace(c, ""): every occurrence of c is deleted, all other characters are kept. */
  function RemoveAll(s: string, c: char): (r: string)
    ensures c !in r
    ensures multiset(r) == multiset(s)[c := 0]
    ensures |r| == |s| - multiset(s)[c]
  {
    if s == [] then []
    else
      assert s == [s[0]] + s[1..];
      if s[0] == c then RemoveAll(s[1..], c) else [s[0]] + RemoveAll(s[1..], c)
  }

  lemma {:induction false} ReplaceConcat(s: string, t: string, a: char, b: char)
    ensures Replace(s + t, a, b) == Replace(s, a, b) + Replace(t, a, b)
  {
  }

  lemma {:induction false} RemoveAllConcat(s: string, t: string, c: char)
    ensures RemoveAll(s + t, c) == RemoveAll(s, c) + RemoveAll(t, c)
    decreases |s|
  {
    if s != [] {
      assert (s + t)[1..] == s[1..] + t;
      RemoveAllConcat(s[1..], t, c);
    } else {
      assert s + t == t;
    }
  }

  // ---------------------------------------------------------------------------
  // number_to_string
  // ---------------------------------------------------------------------------

  /**
   * number_to_string applied to the "{:f}" text of a number: when the text has a
   * decimal point, trailing zeros and then a dangling point are stripped;
   * otherwise the text is returned as it is.
   */
  function NumberToString(fixed: string): (r: string)
    ensures r <= fixed
    ensures '.' !in fixed ==> r == fixed
    ensures '.' in fixed ==> r == [] || r[|r| - 1] != '.'
  {
    if '.' in fixed then RStrip(RStrip(fixed, '0'), '.') else fixed
  }

  /**
   * Fixed-point text as "{:f}" lays it out: the sign and integer digits, then,
   * when there are fraction digits, a point and those digits.
   */
  function FixedText(whole: string, frac: string): string
  {
    if frac == [] then whole else whole + "." + frac
  }

  /** A fraction of zeros only disappears together with its point. */
  lemma TrimZeroFraction(whole: string, frac: string)
    requires '.' !in whole && frac != [] && RStrip(frac, '0') == []
    ensures NumberToString(whole + "." + frac) == whole
  {
    var s := whole + "." + frac;
    assert s == (whole + ".") + frac;
    assert s[|whole|] == '.';
    RStripConcat(whole + ".", frac, '0');
    assert RStrip(whole + ".", '0') == whole + ".";
    RStripConcat(whole, ".", '.');
    assert RStrip(".", '.') == [];
    assert RStrip(whole, '.') == whole by {
      assert whole == [] || whole[|whole| - 1] in whole;
    }
  }

  /** A fraction with a non-zero digit keeps everything up to that digit. */
  lemma TrimKeptFraction(whole: string, frac: string)
    requires '.' !in frac && RStrip(frac, '0') != []
    ensures NumberToString(whole + "." + frac) == whole + "." + RStrip(frac, '0')
  {
    var s, t := whole + "." + frac, RStrip(frac, '0');
    assert s == (whole + ".") + frac;
    assert s[|whole|] == '.';
    RStripConcat(whole + ".", frac, '0');
    assert t[|t| - 1] in frac;
    assert RStrip(whole + "." + t, '.') == whole + "." + t;
  }

  /**
   * Trimming a fixed-point text keeps the integer part exactly and drops only
   * the trailing zeros of the fraction (and the point when none is left). What
   * remains never ends in a point, and ends in a zero only when no point is in it.
   */
  lemma TrimFixedText(whole: string, frac: string)
    requires '.' !in whole && '.' !in frac
    ensures NumberToString(FixedText(whole, frac)) == FixedText(whole, RStrip(frac, '0'))
    ensures whole <= NumberToString(FixedText(whole, frac))
    ensures var r := NumberToString(FixedText(whole, frac));
            '.' in r ==> r[|r| - 1] != '0' && r[|r| - 1] != '.'
  {
    var t := RStrip(frac, '0');
    if frac != [] {
      if t == [] {
        TrimZeroFraction(whole, frac);
      } else {
        TrimKeptFraction(whole, frac);
      }
    }
    var r := FixedText(whole, t);
    if '.' in r {
      assert t != [];
      assert t[|t| - 1] in frac;
    }
  }

  /** Trimming a fixed-point text twice gives the same text as trimming it once. */
  lemma NumberToStringIdempotent(whole: string, frac: string)
    requires '.' !in whole && '.' !in frac
    ensures NumberToString(NumberToString(FixedText(whole, frac))) == NumberToString(FixedText(whole, frac))
  {
    var t := RStrip(frac, '0');
    TrimFixedText(whole, frac);
    assert '.' !in t by {
      forall i | 0 <= i < |t| ensures t[i] != '.' { assert t[i] == frac[i]; }
    }
    TrimFixedText(whole, t);
    assert RStrip(t, '0') == t;
  }

  /** The decimal digit for d. */
  function DigitChar(d: nat): char
    requires d < 10
  {
    ('0' as int + d) as char
  }

  /** Python's str(n) for a non-negative integer. */
  function NatText(n: nat): (r: string)
    ensures |r| > 0
    ensures forall i :: 0 <= i < |r| ==> '0' <= r[i] <= '9'
  {
    if n < 10 then [DigitChar(n)] else NatText(n / 10) + [DigitChar(n % 10)]
  }

  /** Python's str(n) for an integer. */
  function IntText(n: int): (r: string)
    ensures '.' !in r
  {
    if n < 0 then "-" + NatText(-n) else NatText(n)
  }

  /**
   * "{:f}" renders an int (or a bool) through float as its digits followed by
   * ".000000"; number_to_string then gives back exactly str(n).
   */
  lemma IntegerNumberToString(n: int)
    ensures NumberToString(IntText(n) + ".000000") == IntText(n)
  {
    assert RStrip("000000", '0') == [] by {
      assert RStrip("0", '0') == [];
      assert "00"[..1] == "0";
      assert "000"[..2] == "00";
      assert "0000"[..3] == "000";
      assert "00000"[..4] == "0000";
      assert "000000"[..5] == "00000";
    }
    TrimFixedText(IntText(n), "000000");
    assert FixedText(IntText(n), "000000") == IntText(n) + ".000000";
  }

  // ---------------------------------------------------------------------------
  // Lists: str(v).replace("'", '"').replace(" ", "")
  // ---------------------------------------------------------------------------

  /** The list branch of create_query_dict applied to the str() text of a list. */
  function RenderList(repr: string): (r: string)
    ensures '\'' !in r && ' ' !in r
    ensures |r| == |repr| - multiset(repr)[' ']
  {
    var m := Replace(repr, '\'', '"');
    var r := RemoveAll(m, ' ');
    assert multiset(r)['\''] == 0 by { assert multiset(m)['\''] == 0; }
    r
  }

  /** Both replacements work character by character, so rendering distributes over concatenation. */
  lemma RenderListConcat(a: string, b: string)
    ensures RenderList(a + b) == RenderList(a) + RenderList(b)
  {
    ReplaceConcat(a, b, '\'', '"');
    RemoveAllConcat(Replace(a, '\'', '"'), Replace(b, '\'', '"'), ' ');
  }

  /**
   * A list item repr() renders as itself between single quotes and that the
   * rendering leaves alone: printable ASCII other than a space, a quote or a
   * backslash (symbols, intervals, permission names with underscores).
   */
  predicate PlainWord(s: string)
  {
    forall i :: 0 <= i < |s| ==> '!' <= s[i] <= '~' && s[i] != '\'' && s[i] != '"' && s[i] != '\\'
  }

  /** The items of str(xs) for a list of strings: repr of each, separated by ", ". */
  function PyReprItems(xs: seq<string>): string
  {
    if xs == [] then ""
    else if |xs| == 1 then "'" + xs[0] + "'"
    else "'" + xs[0] + "', " + PyReprItems(xs[1..])
  }

  /** str(xs) for a list of plain strings, e.g. ['BTCUSDT', 'BNBBTC']. */
  function PyListRepr(xs: seq<string>): string
  {
    "[" + PyReprItems(xs) + "]"
  }

  /** The items of a compact JSON array of strings, separated by ",". */
  function JsonItems(xs: seq<string>): string
  {
    if xs == [] then ""
    else if |xs| == 1 then "\"" + xs[0] + "\""
    else "\"" + xs[0] + "\"," + JsonItems(xs[1..])
  }

  /** The compact JSON array of strings, e.g. ["BTCUSDT","BNBBTC"]. */
  function JsonList(xs: seq<string>): string
  {
    "[" + JsonItems(xs) + "]"
  }

  lemma PlainWordUntouched(w: string)
    requires PlainWord(w)
    ensures RenderList(w) == w
  {
    var m := Replace(w, '\'', '"');
    assert m == w;
    assert multiset(w)[' '] == 0 by {
      assert ' ' !in w by {
        forall i | 0 <= i < |w| ensures w[i] != ' ' { }
      }
    }
    assert |RenderList(w)| == |w|;
    if w != [] {
      assert w == [w[0]] + w[1..];
      assert PlainWord(w[1..]) by {
        forall i | 0 <= i < |w[1..]|
          ensures '!' <= w[1..][i] <= '~' && w[1..][i] != '\'' && w[1..][i] != '"' && w[1..][i] != '\\'
        {
          assert w[1..][i] == w[i + 1];
        }
      }
      PlainWordUntouched(w[1..]);
      RenderListConcat([w[0]], w[1..]);
      assert RenderList([w[0]]) == [w[0]];
    }
  }

  /** Rendering a single character: a space vanishes, a single quote becomes a double quote. */
  lemma RenderChar(c: char)
    ensures RenderList([c]) == if c == ' ' then [] else [if c == '\'' then '"' else c]
  {
    var d := if c == '\'' then '"' else c;
    assert [c][1..] == [];
    assert Replace([c], '\'', '"') == [d];
    assert [d][1..] == [];
  }

  lemma RenderQuote()
    ensures RenderList("'") == "\""
  {
    RenderChar('\'');
  }

  lemma RenderBrackets()
    ensures RenderList("[") == "[" && RenderList("]") == "]"
  {
    RenderChar('[');
    RenderChar(']');
  }

  lemma RenderThree(a: char, b: char, c: char)
    ensures RenderList([a, b, c]) == RenderList([a]) + RenderList([b]) + RenderList([c])
  {
    assert [a, b, c] == [a] + [b] + [c];
    RenderListConcat([a] + [b], [c]);
    RenderListConcat([a], [b]);
  }

  lemma RenderComma()
    ensures RenderList(",") == "," && RenderList(" ") == []
  {
    RenderChar(',');
    RenderChar(' ');
  }

  lemma RenderSeparator()
    ensures RenderList("', ") == "\","
  {
    RenderThree('\'', ',', ' ');
    RenderQuote();
    RenderComma();
  }

  /** Rendering one quoted item with its separator. */
  lemma RenderQuoted(w: string, sep: string)
    requires PlainWord(w)
    ensures RenderList("'" + w + sep) == "\"" + w + RenderList(sep)
  {
    PlainWordUntouched(w);
    RenderQuote(); RenderBrackets(); RenderSeparator();
    RenderListConcat("'" + w, sep);
    RenderListConcat("'", w);
  }

  lemma RenderLastItem(w: string)
    requires PlainWord(w)
    ensures RenderList("'" + w + "'") == "\"" + w + "\""
  {
    RenderQuoted(w, "'");
    RenderQuote();
  }

  lemma RenderItemThenRest(w: string, rest: string)
    requires PlainWord(w)
    ensures RenderList("'" + w + "', " + rest) == "\"" + w + "\"," + RenderList(rest)
  {
    RenderListConcat("'" + w + "', ", rest);
    RenderQuoted(w, "', ");
    RenderSeparator();
  }

  lemma {:induction false} RenderItems(xs: seq<string>)
    requires forall i :: 0 <= i < |xs| ==> PlainWord(xs[i])
    ensures RenderList(PyReprItems(xs)) == JsonItems(xs)
    decreases |xs|
  {
    if xs == [] {
      assert RenderList([]) == [];
    } else if |xs| == 1 {
      RenderLastItem(xs[0]);
    } else {
      RenderItems(xs[1..]);
      RenderItemThenRest(xs[0], PyReprItems(xs[1..]));
    }
  }

  /**
   * For a list of plain strings, the list branch turns Python's str() of the
   * list into the compact JSON array the exchange expects.
   */
  lemma RenderListOfWords(xs: seq<string>)
    requires forall i :: 0 <= i < |xs| ==> PlainWord(xs[i])
    ensures RenderList(PyListRepr(xs)) == JsonList(xs)
  {
    RenderItems(xs);
    RenderQuote(); RenderBrackets(); RenderSeparator();
    RenderListConcat("[" + PyReprItems(xs), "]");
    RenderListConcat("[", PyReprItems(xs));
  }

  // ---------------------------------------------------------------------------
  // create_query_dict
  // ---------------------------------------------------------------------------

  /** A parameter value, classified the way create_query_dict tests it. */
  datatype Param =
    | NoneValue                  // Python None: the key is dropped
    | ListValue(repr: string)    // a list, given by its str() text
    | NumberValue(fixed: string) // an int, bool, float or Decimal, given by its "{:f}" text
    | TextValue(s: string)       // a str
    | OtherValue(id: nat)        // any other object, identified opaquely

  /** A key and its value, in the dictionary's insertion order. */
  type Entry = (string, Param)

  /** The query value kept for a non-None parameter. */
  function Render(v: Param): (r: Param)
    requires !v.NoneValue?
    ensures r.TextValue? || r.OtherValue?
    ensures v.TextValue? || v.OtherValue? ==> r == v
  {
    match v
    case ListValue(repr) => TextValue(RenderList(repr))
    case NumberValue(fixed) => TextValue(NumberToString(fixed))
    case _ => v
  }

  /** The dictionary create_query_dict builds from the entries of params, in order. */
  function QueryDict(params: seq<Entry>): (r: seq<Entry>)
    ensures |r| <= |params|
    ensures forall a :: 0 <= a < |r| ==> r[a].1.TextValue? || r[a].1.OtherValue?
  {
    if params == [] then []
    else
      var (k, v) := params[|params| - 1];
      QueryDict(params[..|params| - 1]) + if v.NoneValue? then [] else [(k, Render(v))]
  }

  /** Positions of params that create_query_dict keeps, in order. */
  function KeptIndices(params: seq<Entry>): seq<nat>
  {
    if params == [] then []
    else
      KeptIndices(params[..|params| - 1]) +
      if params[|params| - 1].1.NoneValue? then [] else [|params| - 1]
  }

  /**
   * The kept positions hold non-None values and increase, and every position
   * holding a non-None value is kept.
   */
  lemma {:induction false} KeptIndicesFilter(params: seq<Entry>)
    ensures var idx := KeptIndices(params);
      && (forall a :: 0 <= a < |idx| ==> idx[a] < |params| && !params[idx[a]].1.NoneValue?)
      && (forall a, b :: 0 <= a < b < |idx| ==> idx[a] < idx[b])
      && (forall i :: 0 <= i < |params| && !params[i].1.NoneValue? ==> i in idx)
    decreases |params|
  {
    if params != [] {
      var n := |params| - 1;
      var init := params[..n];
      KeptIndicesFilter(init);
      var idx, idx0 := KeptIndices(params), KeptIndices(init);
      assert forall i :: 0 <= i < n ==> params[i] == init[i];
      assert forall a :: 0 <= a < |idx0| ==> idx[a] == idx0[a];
    }
  }

  /** Output entry a of the query dictionary is the rendered input entry at kept position a. */
  lemma {:induction false} QueryDictAlongKept(params: seq<Entry>)
    ensures |KeptIndices(params)| == |QueryDict(params)|
    ensures forall a :: 0 <= a < |QueryDict(params)| ==>
      KeptIndices(params)[a] < |params| && !params[KeptIndices(params)[a]].1.NoneValue? &&
      QueryDict(params)[a] == (params[KeptIndices(params)[a]].0, Render(params[KeptIndices(params)[a]].1))
    decreases |params|
  {
    KeptIndicesFilter(params);
    if params != [] {
      var n := |params| - 1;
      var init := params[..n];
      QueryDictAlongKept(init);
      KeptIndicesFilter(init);
      var q, idx := QueryDict(params), KeptIndices(params);
      var q0, idx0 := QueryDict(init), KeptIndices(init);
      forall a | 0 <= a < |q0|
        ensures q[a] == (params[idx[a]].0, Render(params[idx[a]].1))
      {
        assert idx[a] == idx0[a] && q[a] == q0[a];
        assert params[idx0[a]] == init[idx0[a]];
      }
    }
  }

  /**
   * The query dictionary is the non-None entries of params, in their input order:
   * output entry a comes from input position KeptIndices(params)[a], those
   * positions increase, and every input position holding a non-None value is one
   * of them. (That every output value is a string or an object passed through
   * is part of QueryDict's own contract.)
   */
  lemma {:induction false} QueryDictIsOrderedFilter(params: seq<Entry>)
    ensures var q, idx := QueryDict(params), KeptIndices(params);
      && |idx| == |q|
      && (forall a :: 0 <= a < |q| ==>
            idx[a] < |params| && !params[idx[a]].1.NoneValue? &&
            q[a] == (params[idx[a]].0, Render(params[idx[a]].1)))
      && (forall a, b :: 0 <= a < b < |idx| ==> idx[a] < idx[b])
      && (forall i :: 0 <= i < |params| && !params[i].1.NoneValue? ==> i in idx)
  {
    KeptIndicesFilter(params);
    QueryDictAlongKept(params);
  }

  /** No key is kept whose value is None, and every other key is kept. */
  lemma QueryDictKeys(params: seq<Entry>, k: string)
    ensures (exists a :: 0 <= a < |QueryDict(params)| && QueryDict(params)[a].0 == k) <==>
            (exists i :: 0 <= i < |params| && params[i].0 == k && !params[i].1.NoneValue?)
  {
    QueryDictIsOrderedFilter(params);
    var q, idx := QueryDict(params), KeptIndices(params);
    if i :| 0 <= i < |params| && params[i].0 == k && !params[i].1.NoneValue? {
      assert i in idx;
      var a :| 0 <= a < |idx| && idx[a] == i;
      assert q[a].0 == k;
    }
  }

  /** create_query_dict: walks the parameters in order, skipping None and rendering the rest. */
  method CreateQueryDict(params: seq<Entry>) returns (query: seq<Entry>)
    ensures query == QueryDict(params)
  {
    query := [];
    var i := 0;
    while i < |params|
      invariant 0 <= i <= |params|
      invariant query == QueryDict(params[..i])
    {
      var (k, v) := params[i];
      assert params[..i + 1][..i] == params[..i];
      if !v.NoneValue? {
        query := query + [(k, Render(v))];
      }
      i := i + 1;
    }
    assert params[..i] == params;
  }
}
