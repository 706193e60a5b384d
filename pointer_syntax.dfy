/**
 * The text of a JSON Pointer (RFC 6901): the grammar of section 3, the
 * splitting of a pointer into reference tokens and the `~0`/`~1` escapes of
 * section 4, and the decimal array indices tokens denote.
 */
module PointerSyntax {

  /*
   * The grammar, read off the regular expression `(/([^~/]|~[01])*)*`:
   * a pointer is empty or a '/' followed by a reference token, and a
   * reference token runs up to the next '/', which starts the next one.
   */
  predicate MatchesPointer(s: string)
    decreases |s|, 0
  {
    s == [] || (s[0] == '/' && MatchesToken(s[1..]))
  }

  predicate MatchesToken(s: string)
    decreases |s|, 1
  {
    if s == [] then true
    else if s[0] == '/' then MatchesPointer(s)
    else if s[0] == '~' then |s| >= 2 && (s[1] == '0' || s[1] == '1') && MatchesToken(s[2..])
    else MatchesToken(s[1..])
  }

  /** Every '~' is followed by '0' or '1'. */
  predicate EscapesOk(s: string)
  {
    forall i :: 0 <= i < |s| && s[i] == '~' ==> i + 1 < |s| && (s[i + 1] == '0' || s[i + 1] == '1')
  }

  /** The grammar in plain words: empty, or a leading '/', and only the two escapes. */
  predicate WellFormed(s: string)
  {
    (s == [] || s[0] == '/') && EscapesOk(s)
  }

  lemma {:induction false} EscapesOkTail(s: string)
    requires s != [] && s[0] != '~'
    ensures EscapesOk(s) <==> EscapesOk(s[1..])
  {
    if EscapesOk(s[1..]) {
      forall i | 0 <= i < |s| && s[i] == '~'
        ensures i + 1 < |s| && (s[i + 1] == '0' || s[i + 1] == '1')
      {
        assert s[1..][i - 1] == s[i];
      }
    }
  }

  lemma {:induction false} MatchesTokenIff(s: string)
    ensures MatchesToken(s) <==> EscapesOk(s)
    decreases |s|
  {
    if s == [] {
    } else if s[0] == '/' {
      MatchesTokenIff(s[1..]);
      EscapesOkTail(s);
    } else if s[0] == '~' {
      if |s| >= 2 && (s[1] == '0' || s[1] == '1') {
        MatchesTokenIff(s[2..]);
        EscapesOkTail(s[1..]);
        assert s[1..][1..] == s[2..];
        if EscapesOk(s[1..]) {
          forall i | 0 <= i < |s| && s[i] == '~'
            ensures i + 1 < |s| && (s[i + 1] == '0' || s[i + 1] == '1')
          {
            if i > 0 { assert s[1..][i - 1] == s[i]; }
          }
        }
        if EscapesOk(s) {
          forall i | 0 <= i < |s[1..]| && s[1..][i] == '~'
            ensures i + 1 < |s[1..]| && (s[1..][i + 1] == '0' || s[1..][i + 1] == '1')
          {
            assert s[i + 1] == s[1..][i];
          }
        }
      } else {
        assert !EscapesOk(s) by { assert s[0] == '~'; }
      }
    } else {
      MatchesTokenIff(s[1..]);
      EscapesOkTail(s);
    }
  }

  /**
   * Section 3 of RFC 6901: the text is a pointer exactly when it is empty or
   * starts with '/', and every '~' in it is the start of `~0` or `~1`.
   */
  lemma {:induction false} MatchesPointerIff(s: string)
    ensures MatchesPointer(s) <==> WellFormed(s)
  {
    if s != [] && s[0] == '/' {
      MatchesTokenIff(s[1..]);
      EscapesOkTail(s);
    }
  }

  // ---------------------------------------------------------------------
  // Splitting and unescaping

  /** The pieces of `s` between the '/' characters, empty pieces included. */
  function Segments(s: string): (r: seq<string>)
    ensures |r| >= 1
    ensures forall j :: 0 <= j < |r| ==> '/' !in r[j]
    decreases |s|
  {
    if s == [] then [[]]
    else
      var rest := Segments(s[1..]);
      if s[0] == '/' then [[]] + rest else [[s[0]] + rest[0]] + rest[1..]
  }

  /** The pieces that are not empty, in order. */
  function NonEmpty(ss: seq<string>): (r: seq<string>)
    ensures forall j :: 0 <= j < |r| ==> r[j] != []
  {
    if ss == [] then []
    else if ss[0] == [] then NonEmpty(ss[1..])
    else [ss[0]] + NonEmpty(ss[1..])
  }

  /**
   * Every occurrence of the two characters `a b` replaced by `c`, scanning
   * from the left without overlaps, as a string replace does.
   */
  function Replace(s: string, a: char, b: char, c: char): string
    decreases |s|
  {
    if |s| >= 2 && s[0] == a && s[1] == b then [c] + Replace(s[2..], a, b, c)
    else if s == [] then []
    else [s[0]] + Replace(s[1..], a, b, c)
  }

  /** Section 4 of RFC 6901: `~1` becomes '/' first, then `~0` becomes '~'. */
  function Unescape(t: string): string
  {
    Replace(Replace(t, '~', '1', '/'), '~', '0', '~')
  }

  function UnescapeAll(ts: seq<string>): (r: seq<string>)
    ensures |r| == |ts|
    ensures forall j :: 0 <= j < |ts| ==> r[j] == Unescape(ts[j])
  {
    if ts == [] then [] else [Unescape(ts[0])] + UnescapeAll(ts[1..])
  }

  /** The decoded reference tokens: split on '/', drop empty pieces, unescape. */
  function RawTokens(s: string): seq<string>
  {
    UnescapeAll(NonEmpty(Segments(s)))
  }

  /**
   * The tokens a resolution walks: none for the empty pointer; a single empty
   * token for a non-empty pointer that has no non-empty piece (such as "/").
   */
  function Tokens(s: string): (r: seq<string>)
    ensures s == [] <==> r == []
  {
    if s == [] then []
    else if RawTokens(s) == [] then [""]
    else RawTokens(s)
  }

  /** Section 4 of RFC 6901 the other way: '~' written `~0`, '/' written `~1`. */
  function Escape(t: string): (r: string)
    ensures '/' !in r
    ensures EscapesOk(r)
    ensures t == [] <==> r == []
  {
    if t == [] then []
    else
      var rest := Escape(t[1..]);
      var head := if t[0] == '~' then "~0" else if t[0] == '/' then "~1" else [t[0]];
      assert EscapesOk(head + rest) by {
        forall i | 0 <= i < |head + rest| && (head + rest)[i] == '~'
          ensures i + 1 < |head + rest| && ((head + rest)[i + 1] == '0' || (head + rest)[i + 1] == '1')
        {
          if i >= |head| { assert (head + rest)[i] == rest[i - |head|]; }
        }
      }
      head + rest
  }

  /** A pointer written from tokens: each escaped token after a '/'. */
  function Encode(ts: seq<string>): string
  {
    if ts == [] then [] else Encode(ts[..|ts| - 1]) + "/" + Escape(ts[|ts| - 1])
  }

  // ---------------------------------------------------------------------
  // Array indices

  predicate IsDigit(c: char) { '0' <= c <= '9' }

  /** A token that names an array index: a non-empty run of decimal digits. */
  predicate IsIndex(t: string)
  {
    |t| > 0 && forall j :: 0 <= j < |t| ==> IsDigit(t[j])
  }

  /** The value of a run of decimal digits. */
  function ParseIndex(t: string): nat
    requires forall j :: 0 <= j < |t| ==> IsDigit(t[j])
    decreases |t|
  {
    if t == [] then 0
    else
      assert IsDigit(t[|t| - 1]);
      ParseIndex(t[..|t| - 1]) * 10 + (t[|t| - 1] as int - '0' as int)
  }

  /** The decimal text of `n`, as a path is written from an index. */
  function IndexText(n: nat): (r: string)
    ensures IsIndex(r)
    ensures '/' !in r && '~' !in r
  {
    if n < 10 then [('0' as int + n) as char]
    else IndexText(n / 10) + [('0' as int + n % 10) as char]
  }

  /** Writing an index in decimal and reading it back gives the index. */
  lemma {:induction false} ParseIndexText(n: nat)
    ensures ParseIndex(IndexText(n)) == n
  {
    if n >= 10 {
      var t := IndexText(n);
      assert t[..|t| - 1] == IndexText(n / 10);
      ParseIndexText(n / 10);
    }
  }

  // ---------------------------------------------------------------------
  // Properties of the escapes and the tokenizer

  /** `t` with every '~' written `~0` and nothing else changed. */
  function TildeEscaped(t: string): string
  {
    if t == [] then [] else (if t[0] == '~' then "~0" else [t[0]]) + TildeEscaped(t[1..])
  }

  lemma {:induction false} ReplaceTildeOne(t: string)
    ensures Replace(Escape(t), '~', '1', '/') == TildeEscaped(t)
    decreases |t|
  {
    if t != [] {
      var rest := Escape(t[1..]);
      ReplaceTildeOne(t[1..]);
      if t[0] == '~' {
        var s := "~0" + rest;
        assert s[1..] == "0" + rest && s[1..][1..] == rest;
      } else if t[0] == '/' {
        var s := "~1" + rest;
        assert s[2..] == rest;
      } else {
        var s := [t[0]] + rest;
        assert s[1..] == rest;
      }
    }
  }

  lemma {:induction false} ReplaceTildeZero(t: string)
    ensures Replace(TildeEscaped(t), '~', '0', '~') == t
    decreases |t|
  {
    if t != [] {
      var rest := TildeEscaped(t[1..]);
      ReplaceTildeZero(t[1..]);
      if t[0] == '~' {
        var s := "~0" + rest;
        assert s[2..] == rest;
      } else {
        var s := [t[0]] + rest;
        assert s[1..] == rest;
        assert [t[0]] + t[1..] == t;
      }
    }
  }

  /** Section 4 of RFC 6901: unescaping undoes escaping, for every token. */
  lemma {:induction false} UnescapeEscape(t: string)
    ensures Unescape(Escape(t)) == t
  {
    ReplaceTildeOne(t);
    ReplaceTildeZero(t);
  }

  /** The order of the two replacements matters: `~01` stands for `~1`. */
  lemma {:induction false} UnescapeTildeZeroOne()
    ensures Unescape("~01") == "~1"
  {
    var s := "~01";
    assert s[1..] == "01" && s[1..][1..] == "1" && s[1..][1..][1..] == [];
    assert Replace(s, '~', '1', '/') == s;
    assert s[2..] == "1";
    assert Replace(s, '~', '0', '~') == "~1";
  }

  /** A token without '/' and '~' is written as it is. */
  lemma {:induction false} EscapePlain(t: string)
    requires '/' !in t && '~' !in t
    ensures Escape(t) == t
    decreases |t|
  {
    if t != [] {
      assert t[0] in t;
      assert t == [t[0]] + t[1..];
      assert '/' !in t[1..] && '~' !in t[1..];
      EscapePlain(t[1..]);
      assert Escape(t) == [t[0]] + Escape(t[1..]);
    }
  }

  lemma {:induction false} SegmentsSingle(k: string)
    requires '/' !in k
    ensures Segments(k) == [k]
    decreases |k|
  {
    if k != [] {
      assert k[0] in k;
      assert forall c :: c in k[1..] ==> c in k;
      SegmentsSingle(k[1..]);
      assert [k[0]] + k[1..] == k;
    }
  }

  /** Appending "/k" appends one piece. */
  lemma {:induction false} SegmentsExtend(p: string, k: string)
    requires '/' !in k
    ensures Segments(p + "/" + k) == Segments(p) + [k]
    decreases |p|
  {
    if p == [] {
      assert p + "/" + k == "/" + k && ("/" + k)[1..] == k;
      SegmentsSingle(k);
    } else {
      assert (p + "/" + k)[1..] == p[1..] + "/" + k;
      SegmentsExtend(p[1..], k);
    }
  }

  lemma {:induction false} NonEmptyAppend(a: seq<string>, b: seq<string>)
    ensures NonEmpty(a + b) == NonEmpty(a) + NonEmpty(b)
    decreases |a|
  {
    if a == [] {
      assert a + b == b;
    } else {
      assert (a + b)[1..] == a[1..] + b;
      NonEmptyAppend(a[1..], b);
    }
  }

  lemma {:induction false} UnescapeAllAppend(a: seq<string>, b: seq<string>)
    ensures UnescapeAll(a + b) == UnescapeAll(a) + UnescapeAll(b)
  {
  }

  /**
   * A pointer whose token list is what its pieces decode to, without the
   * single empty token that "/" and the like resolve with.
   */
  predicate Canonical(s: string)
  {
    MatchesPointer(s) && Tokens(s) == RawTokens(s)
  }

  /** Appending an escaped non-empty token to a canonical pointer appends that token. */
  lemma {:induction false} ExtendPointer(p: string, t: string)
    requires Canonical(p) && t != []
    ensures Canonical(p + "/" + Escape(t))
    ensures Tokens(p + "/" + Escape(t)) == Tokens(p) + [t]
  {
    var e := Escape(t);
    var q := p + "/" + e;
    SegmentsExtend(p, e);
    NonEmptyAppend(Segments(p), [e]);
    assert NonEmpty([e]) == [e];
    UnescapeAllAppend(NonEmpty(Segments(p)), [e]);
    UnescapeEscape(t);
    assert RawTokens(q) == RawTokens(p) + [t];
    MatchesPointerIff(p);
    MatchesPointerIff(q);
    assert EscapesOk(q) by {
      forall i | 0 <= i < |q| && q[i] == '~'
        ensures i + 1 < |q| && (q[i + 1] == '0' || q[i + 1] == '1')
      {
        if i < |p| {
          assert q[i] == p[i];
          assert p[i + 1] == q[i + 1];
        } else {
          assert i > |p|;
          assert q[i] == e[i - |p| - 1];
          if i + 1 < |q| { assert q[i + 1] == e[i - |p|]; }
        }
      }
    }
  }

  /** Reading a pointer written from non-empty tokens gives those tokens back. */
  lemma {:induction false} EncodeTokens(ts: seq<string>)
    requires forall j :: 0 <= j < |ts| ==> ts[j] != []
    ensures Canonical(Encode(ts))
    ensures Tokens(Encode(ts)) == ts
    decreases |ts|
  {
    if ts != [] {
      var init, last := ts[..|ts| - 1], ts[|ts| - 1];
      InitLast(ts);
      EncodeTokens(init);
      ExtendPointer(Encode(init), last);
    }
  }

  /** A nonempty sequence is its front followed by its last element. */
  lemma {:induction false} InitLast<T>(s: seq<T>)
    requires s != []
    ensures s[..|s| - 1] + [s[|s| - 1]] == s
  {
  }

  /** The pointer "/" resolves with one empty token; "" with none. */
  lemma {:induction false} SlashPointerTokens()
    ensures Tokens("/") == [""]
    ensures Tokens("") == []
  {
    assert "/"[1..] == [];
    assert Segments("/") == [[], []];
  }

  /** Escaping then decoding a single non-empty token returns it unchanged. */
  lemma {:induction false} SingleTokenRoundTrip(t: string)
    requires t != []
    ensures MatchesPointer("/" + Escape(t))
    ensures Tokens("/" + Escape(t)) == [t]
  {
    EncodeTokens([t]);
    assert Encode([t]) == Encode([]) + "/" + Escape(t);
    assert Encode([t]) == "/" + Escape(t);
  }
}
