/**
 * The text rewriting that `toJson` does before parsing: strings written
 * between single quotes become strings between double quotes, so that a
 * JSON parser accepts them. Parsing itself is not part of this model.
 */
module JsonUtil {

  const Backslash: char := '\\'
  const DoubleQuote: char := '"'
  const SingleQuote: char := '\''

  /** The rewriter's state after a prefix of the input: the text written, and whether it is inside a string and which quote opened it. */
  datatype Scan = Scan(text: string, inString: bool, bySingleQuote: bool)

  /**
   * The state after the first `n` characters of `s`. Inside a string the
   * previous character decides whether a quote is escaped, and there is one,
   * because a string is only entered on a quote.
   */
  function ScanTo(s: string, n: nat): (r: Scan)
    requires n <= |s|
    ensures r.inString ==> n > 0
    ensures |r.text| + (if r.inString && s[n - 1] == Backslash then 1 else 0) <= n
    decreases n
  {
    if n == 0 then Scan([], false, false)
    else
      var st, c := ScanTo(s, n - 1), s[n - 1];
      if c != SingleQuote && c != DoubleQuote then
        if !st.inString || c != Backslash then st.(text := st.text + [c]) else st
      else if st.inString then
        if s[n - 2] == Backslash then
          st.(text := st.text + (if c == DoubleQuote then [Backslash, c] else [c]))
        else if c == (if st.bySingleQuote then SingleQuote else DoubleQuote) then
          st.(text := st.text + [DoubleQuote], inString := false)
        else
          st
      else
        Scan(st.text + [DoubleQuote], true, c == SingleQuote)
  }

  /** The text `toJson` hands to the parser. */
  function Normalised(s: string): (r: string)
    ensures |r| <= |s|
  {
    if SingleQuote !in s then s else ScanTo(s, |s|).text
  }

  /** toJson's rewriting: input without a single quote as it is, any other input character by character. */
  method ToJsonText(jsonString: string) returns (r: string)
    ensures r == Normalised(jsonString)
  {
    if SingleQuote !in jsonString {
      return jsonString;
    }
    var sb: string := [];
    var inStringContext := false;
    var bySingleQuote := false;
    for i := 0 to |jsonString|
      invariant ScanTo(jsonString, i) == Scan(sb, inStringContext, bySingleQuote)
    {
      var c := jsonString[i];
      if c != SingleQuote && c != DoubleQuote {
        if !inStringContext || c != Backslash {
          sb := sb + [c];
        }
        continue;
      }
      if inStringContext {
        var p := jsonString[i - 1];
        if p == Backslash {
          if c == DoubleQuote {
            sb := sb + [Backslash, c];
          } else {
            sb := sb + [c];
          }
        } else if bySingleQuote {
          if c == SingleQuote {
            inStringContext := false;
            sb := sb + [DoubleQuote];
          }
        } else if c == DoubleQuote {
          inStringContext := false;
          sb := sb + [DoubleQuote];
        }
      } else {
        inStringContext := true;
        bySingleQuote := c == SingleQuote;
        sb := sb + [DoubleQuote];
      }
    }
    r := sb;
  }

  /** Input without a single quote reaches the parser unchanged. */
  lemma {:induction false} PassThrough(s: string)
    requires SingleQuote !in s
    ensures Normalised(s) == s
  {
  }

  /** Without quotes of either kind the rewriting never enters a string and copies every character. */
  lemma {:induction false} NoQuotesCopied(s: string, n: nat)
    requires n <= |s|
    requires forall i :: 0 <= i < n ==> s[i] != SingleQuote && s[i] != DoubleQuote
    ensures ScanTo(s, n) == Scan(s[..n], false, false)
    decreases n
  {
    if n > 0 {
      NoQuotesCopied(s, n - 1);
      assert s[..n] == s[..n - 1] + [s[n - 1]];
    }
  }

  /** Outside a string, a character other than a quote is copied and the state is kept. */
  lemma {:induction false} OutsideCopied(s: string, n: nat)
    requires n < |s| && !ScanTo(s, n).inString && s[n] != SingleQuote && s[n] != DoubleQuote
    ensures ScanTo(s, n + 1) == ScanTo(s, n).(text := ScanTo(s, n).text + [s[n]])
  {
  }

  /** A quote outside a string opens one, written as a double quote, and remembers its kind. */
  lemma {:induction false} QuoteOpens(s: string, n: nat)
    requires n < |s| && !ScanTo(s, n).inString && (s[n] == SingleQuote || s[n] == DoubleQuote)
    ensures ScanTo(s, n + 1) == Scan(ScanTo(s, n).text + [DoubleQuote], true, s[n] == SingleQuote)
  {
  }

  /**
   * Inside a string, an unescaped quote closes it, written as a double
   * quote, exactly when it is of the kind that opened it; one of the other
   * kind is dropped.
   */
  lemma {:induction false} UnescapedQuoteInside(s: string, n: nat)
    requires n < |s| && ScanTo(s, n).inString && (s[n] == SingleQuote || s[n] == DoubleQuote)
    requires s[n - 1] != Backslash
    ensures var st := ScanTo(s, n);
      var closes := (s[n] == SingleQuote) == st.bySingleQuote;
      ScanTo(s, n + 1) == (if closes then st.(text := st.text + [DoubleQuote], inString := false) else st)
  {
  }

  /**
   * Inside a string, a backslash is dropped, and a quote after a backslash
   * stays in the string: a double quote written escaped, a single quote bare.
   */
  lemma {:induction false} EscapesInside(s: string, n: nat)
    requires n < |s| && ScanTo(s, n).inString
    ensures s[n] == Backslash ==> ScanTo(s, n + 1) == ScanTo(s, n)
    ensures s[n - 1] == Backslash && s[n] == DoubleQuote ==>
      ScanTo(s, n + 1) == ScanTo(s, n).(text := ScanTo(s, n).text + [Backslash, DoubleQuote])
    ensures s[n - 1] == Backslash && s[n] == SingleQuote ==>
      ScanTo(s, n + 1) == ScanTo(s, n).(text := ScanTo(s, n).text + [SingleQuote])
  {
  }

  /** A single-quoted member name and value become double-quoted. */
  lemma {:induction false} SingleQuotedObject()
    ensures Normalised("{'a':'b'}") == "{\"a\":\"b\"}"
  {
    var s := "{'a':'b'}";
    assert s[1] == SingleQuote;
    SingleQuotedName();
    assert ScanTo(s, 5) == Scan("{\"a\":", false, true);
    assert ScanTo(s, 6) == Scan("{\"a\":\"", true, true);
    assert ScanTo(s, 7) == Scan("{\"a\":\"b", true, true);
    assert ScanTo(s, 8) == Scan("{\"a\":\"b\"", false, true);
  }

  /** The member name of that object, up to its closing quote. */
  lemma {:induction false} SingleQuotedName()
    ensures ScanTo("{'a':'b'}", 4) == Scan("{\"a\"", false, true)
  {
    var s := "{'a':'b'}";
    assert ScanTo(s, 1) == Scan("{", false, false);
    assert ScanTo(s, 2) == Scan("{\"", true, true);
    assert ScanTo(s, 3) == Scan("{\"a", true, true);
  }

  /** An escaped single quote inside a single-quoted string stays in it, without its backslash. */
  lemma {:induction false} EscapedSingleQuote()
    ensures Normalised("'x\\'y'") == "\"x'y\""
  {
    var s := "'x\\'y'";
    assert s[0] == SingleQuote;
    assert ScanTo(s, 1) == Scan("\"", true, true);
    assert ScanTo(s, 2) == Scan("\"x", true, true);
    assert ScanTo(s, 3) == Scan("\"x", true, true);
    assert ScanTo(s, 4) == Scan("\"x'", true, true);
    assert ScanTo(s, 5) == Scan("\"x'y", true, true);
  }
}
