/**
 * `AbstractURLHandler.normalizeToString` and `normalizeToURL`. A URL whose
 * protocol is neither `http` nor `https` is returned untouched. Otherwise the
 * URL's parts go through `java.net.URI` (its five-argument constructor, then
 * `normalize().toASCIIString()`), a step this model takes as the parameter
 * `uriToAscii` that may fail; then every `+` becomes `%2B`, and one
 * left-to-right pass turns each `%25` followed by two hex digits back into
 * `%` and those digits (percent-encoding, section 2.1 of RFC 3986). That last
 * pass undoes the `%25` the URI constructor writes for every `%` of a URL
 * that was already escaped.
 */
module UrlCanonicalizer {
  import opened Wrappers

  /** A `java.net.URL` by the parts the handler reads. */
  datatype Url = Url(protocol: string, authority: Option<string>, path: string,
                     query: Option<string>, ref: Option<string>)

  /** `url.toExternalForm()` (and `url.toString()`), as `URLStreamHandler` builds it. */
  function ExternalForm(u: Url): string
  {
    u.protocol + ":"
    + (if u.authority.Some? && u.authority.value != "" then "//" + u.authority.value else "")
    + u.path
    + (if u.query.Some? then "?" + u.query.value else "")
    + (if u.ref.Some? then "#" + u.ref.value else "")
  }

  /** The two `MalformedURLException`s. */
  datatype UrlError =
    | CannotConvert(message: string) // the URI constructor threw URISyntaxException
    | Unparsable(text: string)       // `new URL(text)` rejected the canonical string

  predicate IsWebProtocol(protocol: string)
  {
    protocol == "http" || protocol == "https"
  }

  // ---------------------------------------------------------------------
  // replaceAll("\\+", "%2B")
  // ---------------------------------------------------------------------

  function PlusEscape(c: char): string
  {
    if c == '+' then "%2B" else [c]
  }

  /** Every `+` replaced by `%2B`, every other character kept. */
  function EscapePlus(s: string): string
    decreases |s|
  {
    if |s| == 0 then "" else PlusEscape(s[0]) + EscapePlus(s[1..])
  }

  // ---------------------------------------------------------------------
  // ESCAPE_PATTERN.matcher(s).replaceAll("%$1")
  // ---------------------------------------------------------------------

  predicate IsHexDigit(c: char)
  {
    '0' <= c <= '9' || 'a' <= c <= 'f' || 'A' <= c <= 'F'
  }

  /** `%25([0-9a-fA-F][0-9a-fA-F])` matches at the start of `s`. */
  predicate EscapedPercentAt(s: string)
  {
    |s| >= 5 && s[0] == '%' && s[1] == '2' && s[2] == '5' && IsHexDigit(s[3]) && IsHexDigit(s[4])
  }

  /**
   * One left-to-right pass of the pattern: at each position either the
   * pattern matches and its five characters become three, or the character
   * is kept and the scan moves on by one. Replaced text is not scanned again.
   */
  function CollapseEscapedPercent(s: string): string
    decreases |s|
  {
    if |s| == 0 then ""
    else if EscapedPercentAt(s) then ['%', s[3], s[4]] + CollapseEscapedPercent(s[5..])
    else [s[0]] + CollapseEscapedPercent(s[1..])
  }

  // ---------------------------------------------------------------------
  // The two methods
  // ---------------------------------------------------------------------

  /** `normalizeToString(url)`. */
  function NormalizeToString(url: Url, uriToAscii: Url -> Option<string>): (r: Result<string, UrlError>)
    ensures !IsWebProtocol(url.protocol) ==> r == Ok(ExternalForm(url))
    ensures r.Err? <==> IsWebProtocol(url.protocol) && uriToAscii(url).None?
    ensures r.Err? ==> r.error == CannotConvert("Couldn't convert '" + ExternalForm(url) + "' to a valid URI")
    ensures IsWebProtocol(url.protocol) && uriToAscii(url).Some? ==>
              r == Ok(CollapseEscapedPercent(EscapePlus(uriToAscii(url).value)))
    ensures IsWebProtocol(url.protocol) && r.Ok? ==> '+' !in r.value
  {
    if !IsWebProtocol(url.protocol) then Ok(ExternalForm(url))
    else match uriToAscii(url)
      case None => Err(CannotConvert("Couldn't convert '" + ExternalForm(url) + "' to a valid URI"))
      case Some(ascii) =>
        var escaped := EscapePlus(ascii);
        EscapePlusRemovesPlus(ascii);
        CollapseKeepsPlusFree(escaped);
        Ok(CollapseEscapedPercent(escaped))
  }

  /** `normalizeToURL(url)`: the canonical string parsed back by `new URL`. */
  function NormalizeToUrl(url: Url, uriToAscii: Url -> Option<string>, parseUrl: string -> Option<Url>)
    : (r: Result<Url, UrlError>)
    ensures !IsWebProtocol(url.protocol) ==> r == Ok(url)
    ensures IsWebProtocol(url.protocol) ==>
              match NormalizeToString(url, uriToAscii)
              case Err(e) => r == Err(e)
              case Ok(s) => r == (if parseUrl(s).Some? then Ok(parseUrl(s).value) else Err(Unparsable(s)))
  {
    if !IsWebProtocol(url.protocol) then Ok(url)
    else match NormalizeToString(url, uriToAscii)
      case Err(e) => Err(e)
      case Ok(s) => if parseUrl(s).Some? then Ok(parseUrl(s).value) else Err(Unparsable(s))
  }

  // ---------------------------------------------------------------------
  // Properties of the two rewriting steps
  // ---------------------------------------------------------------------

  /** `s` without its `2` and `5` characters. */
  function Drop25(s: string): (r: string)
    decreases |s|
  {
    if |s| == 0 then ""
    else (if s[0] == '2' || s[0] == '5' then "" else [s[0]]) + Drop25(s[1..])
  }

  lemma {:induction false} Drop25Concat(a: string, b: string)
    ensures Drop25(a + b) == Drop25(a) + Drop25(b)
    decreases |a|
  {
    if |a| > 0 {
      assert (a + b)[1..] == a[1..] + b;
      Drop25Concat(a[1..], b);
    } else {
      assert a + b == b;
    }
  }

  lemma {:induction false} Drop25Keeps(s: string, c: char)
    requires c != '2' && c != '5'
    ensures c in Drop25(s) <==> c in s
    decreases |s|
  {
    if |s| > 0 {
      Drop25Keeps(s[1..], c);
      assert s == [s[0]] + s[1..];
    }
  }

  /** The pass and its input agree once every `2` and `5` is dropped. */
  lemma {:induction false} CollapseOnlyDrops25(s: string)
    ensures Drop25(CollapseEscapedPercent(s)) == Drop25(s)
    decreases |s|
  {
    if |s| > 0 {
      if EscapedPercentAt(s) {
        var digits, rest := s[3..5], s[5..];
        CollapseOnlyDrops25(rest);
        assert CollapseEscapedPercent(s) == ['%'] + digits + CollapseEscapedPercent(rest);
        Drop25Concat(['%'] + digits, CollapseEscapedPercent(rest));
        Drop25Concat(['%'], digits);
        assert s == ['%'] + ['2', '5'] + digits + rest;
        Drop25Concat(['%'] + ['2', '5'] + digits, rest);
        Drop25Concat(['%'] + ['2', '5'], digits);
        Drop25Concat(['%'], ['2', '5']);
        assert Drop25(['2', '5']) == "";
      } else {
        CollapseOnlyDrops25(s[1..]);
        assert CollapseEscapedPercent(s) == [s[0]] + CollapseEscapedPercent(s[1..]);
        Drop25Concat([s[0]], CollapseEscapedPercent(s[1..]));
        assert s == [s[0]] + s[1..];
        Drop25Concat([s[0]], s[1..]);
      }
    }
  }

  /** `a` is `b` with some of its characters deleted and the rest kept in order. */
  predicate IsSubsequence(a: string, b: string)
    decreases |b|
  {
    if |b| == 0 then |a| == 0
    else (|a| > 0 && a[0] == b[0] && IsSubsequence(a[1..], b[1..])) || IsSubsequence(a, b[1..])
  }

  lemma SubsequenceKeep(c: char, a: string, b: string)
    requires IsSubsequence(a, b)
    ensures IsSubsequence([c] + a, [c] + b)
  {
    assert ([c] + a)[1..] == a;
    assert ([c] + b)[1..] == b;
  }

  lemma SubsequenceSkip(c: char, a: string, b: string)
    requires IsSubsequence(a, b)
    ensures IsSubsequence(a, [c] + b)
  {
    assert ([c] + b)[1..] == b;
  }

  /** One match: the `2` and `5` of `%25` skipped, the rest kept. */
  lemma SubsequenceAtMatch(x: char, y: char, a: string, b: string)
    requires IsSubsequence(a, b)
    ensures IsSubsequence(['%'] + ([x] + ([y] + a)), ['%'] + (['2'] + (['5'] + ([x] + ([y] + b)))))
  {
    SubsequenceKeep(y, a, b);
    SubsequenceKeep(x, [y] + a, [y] + b);
    SubsequenceSkip('5', [x] + ([y] + a), [x] + ([y] + b));
    SubsequenceSkip('2', [x] + ([y] + a), ['5'] + ([x] + ([y] + b)));
    SubsequenceKeep('%', [x] + ([y] + a), ['2'] + (['5'] + ([x] + ([y] + b))));
  }

  /** The pass only deletes characters: its result is a subsequence of its input. */
  lemma {:induction false} CollapseIsSubsequence(s: string)
    ensures IsSubsequence(CollapseEscapedPercent(s), s)
    ensures |CollapseEscapedPercent(s)| <= |s|
    decreases |s|
  {
    if |s| == 0 {
    } else if EscapedPercentAt(s) {
      CollapseIsSubsequence(s[5..]);
      SubsequenceAtMatch(s[3], s[4], CollapseEscapedPercent(s[5..]), s[5..]);
      assert s == ['%'] + (['2'] + (['5'] + ([s[3]] + ([s[4]] + s[5..]))));
      assert CollapseEscapedPercent(s) == ['%'] + ([s[3]] + ([s[4]] + CollapseEscapedPercent(s[5..])));
    } else {
      CollapseIsSubsequence(s[1..]);
      SubsequenceKeep(s[0], CollapseEscapedPercent(s[1..]), s[1..]);
      assert s == [s[0]] + s[1..];
    }
  }

  /**
   * The pass deletes characters and nothing else, and every character it
   * deletes is a `2` or a `5`: it keeps every other character, in order.
   */
  lemma CollapseDeletesOnly25(s: string)
    ensures IsSubsequence(CollapseEscapedPercent(s), s)
    ensures Drop25(CollapseEscapedPercent(s)) == Drop25(s)
  {
    CollapseIsSubsequence(s);
    CollapseOnlyDrops25(s);
  }

  /** Hence the pass cannot bring back a `+`. */
  lemma CollapseKeepsPlusFree(s: string)
    requires '+' !in s
    ensures '+' !in CollapseEscapedPercent(s)
  {
    CollapseOnlyDrops25(s);
    Drop25Keeps(s, '+');
    Drop25Keeps(CollapseEscapedPercent(s), '+');
  }

  /** After the `+` step no `+` is left, and a string without one is unchanged. */
  lemma {:induction false} EscapePlusRemovesPlus(s: string)
    ensures '+' !in EscapePlus(s)
    ensures '+' !in s ==> EscapePlus(s) == s
    decreases |s|
  {
    if |s| > 0 {
      EscapePlusRemovesPlus(s[1..]);
      assert '+' !in PlusEscape(s[0]);
      assert s == [s[0]] + s[1..];
    }
  }

  lemma {:induction false} EscapePlusConcat(a: string, b: string)
    ensures EscapePlus(a + b) == EscapePlus(a) + EscapePlus(b)
    decreases |a|
  {
    if |a| > 0 {
      assert (a + b)[1..] == a[1..] + b;
      EscapePlusConcat(a[1..], b);
    } else {
      assert a + b == b;
    }
  }

  /** The index of the first `+` of `s`, or `|s|`. */
  function FirstPlus(s: string): (j: nat)
    ensures j <= |s| && '+' !in s[..j] && (j < |s| ==> s[j] == '+')
    decreases |s|
  {
    if |s| == 0 then 0
    else if s[0] == '+' then 0
    else
      var j := 1 + FirstPlus(s[1..]);
      assert s[..j] == [s[0]] + s[1..][..j - 1];
      j
  }

  /** Up to the first `+`, the `+` step copies; at it, it writes `%2B`. */
  lemma EscapePlusUpToFirstPlus(s: string)
    ensures var j, t := FirstPlus(s), EscapePlus(s);
            |t| >= j && t[..j] == s[..j] &&
            (j < |s| ==> |t| >= j + 3 && t[j] == '%' && t[j + 1] == '2' && t[j + 2] == 'B')
  {
    var j := FirstPlus(s);
    var a, b := s[..j], s[j..];
    assert s == a + b;
    EscapePlusConcat(a, b);
    EscapePlusRemovesPlus(a);
    var t := EscapePlus(s);
    assert t == a + EscapePlus(b);
    if j < |s| {
      EscapePlusAtPlus(b);
    }
  }

  /** At a `+`, the `+` step writes `%2B`. */
  lemma EscapePlusAtPlus(b: string)
    requires b != [] && b[0] == '+'
    ensures |EscapePlus(b)| >= 3 && EscapePlus(b)[..3] == "%2B"
  {
    assert b == ['+'] + b[1..];
    EscapePlusConcat(['+'], b[1..]);
    assert EscapePlus(['+']) == "%2B";
  }

  /** A character that starts no match is copied. */
  lemma CollapseKeepsHead(c: char, x: string)
    requires !EscapedPercentAt([c] + x)
    ensures CollapseEscapedPercent([c] + x) == [c] + CollapseEscapedPercent(x)
  {
    assert ([c] + x)[1..] == x;
  }

  /** The `+` step neither makes nor breaks a match of the pattern. */
  lemma EscapePlusKeepsMatch(s: string)
    ensures EscapedPercentAt(EscapePlus(s)) <==> EscapedPercentAt(s)
  {
    var j, t := FirstPlus(s), EscapePlus(s);
    EscapePlusUpToFirstPlus(s);
    if j >= 5 {
      assert t[..5] == s[..5] by {
        assert t[..5] == t[..j][..5] && s[..5] == s[..j][..5];
      }
      assert t[0] == s[0] && t[1] == s[1] && t[2] == s[2] && t[3] == s[3] && t[4] == s[4] by {
        assert forall i :: 0 <= i < 5 ==> t[..5][i] == t[i] && s[..5][i] == s[i];
      }
    } else if j == |s| {
      EscapePlusRemovesPlus(s);
      assert t == s;
    } else {
      assert j < 5 && s[j] == '+' && t[j] == '%';
      assert j + 2 < |t| && t[j + 2] == 'B';
      assert forall i :: 0 <= i < j ==> t[i] == s[i] by {
        assert forall i :: 0 <= i < j ==> t[..j][i] == t[i] && s[..j][i] == s[i];
      }
    }
  }

  /** `EscapeAndCollapseCommute` holds of `s`. */
  ghost predicate Commutes(s: string)
  {
    CollapseEscapedPercent(EscapePlus(s)) == EscapePlus(CollapseEscapedPercent(s))
  }

  /**
   * The order of the last two steps does not matter: the `%2B` written for a
   * `+` never forms a new `%25XX` match, and the pass never creates a `+`.
   */
  lemma {:induction false} EscapeAndCollapseCommute(s: string)
    ensures CollapseEscapedPercent(EscapePlus(s)) == EscapePlus(CollapseEscapedPercent(s))
    decreases |s|
  {
    if |s| > 0 {
      if EscapedPercentAt(s) {
        EscapeAndCollapseCommute(s[5..]);
        CommutesAtMatch(s);
      } else if s[0] == '+' {
        EscapeAndCollapseCommute(s[1..]);
        CommutesAtPlus(s);
      } else {
        EscapeAndCollapseCommute(s[1..]);
        CommutesAtOther(s);
      }
    }
  }

  lemma CommutesAtMatch(s: string)
    requires EscapedPercentAt(s) && Commutes(s[5..])
    ensures Commutes(s)
  {
    var t := EscapePlus(s);
    EscapePlusKeepsMatch(s);
    var head := ['%', s[3], s[4]];
    EscapePlusConcat(s[..5], s[5..]);
    assert s[..5] + s[5..] == s;
    assert '+' !in s[..5] && '+' !in head;
    EscapePlusRemovesPlus(s[..5]);
    EscapePlusRemovesPlus(head);
    assert t[5..] == EscapePlus(s[5..]);
    EscapePlusConcat(head, CollapseEscapedPercent(s[5..]));
  }

  lemma CommutesAtPlus(s: string)
    requires |s| > 0 && s[0] == '+' && Commutes(s[1..])
    ensures Commutes(s)
  {
    var t, rest := EscapePlus(s), EscapePlus(s[1..]);
    assert s == ['+'] + s[1..];
    EscapePlusConcat(['+'], s[1..]);
    assert t == ['%'] + (['2'] + (['B'] + rest));
    CollapseKeepsHead('%', ['2'] + (['B'] + rest));
    CollapseKeepsHead('2', ['B'] + rest);
    CollapseKeepsHead('B', rest);
    CollapseKeepsHead('+', s[1..]);
    EscapePlusConcat(['+'], CollapseEscapedPercent(s[1..]));
  }

  lemma CommutesAtOther(s: string)
    requires |s| > 0 && s[0] != '+' && !EscapedPercentAt(s) && Commutes(s[1..])
    ensures Commutes(s)
  {
    var t := EscapePlus(s);
    EscapePlusKeepsMatch(s);
    assert t == [s[0]] + EscapePlus(s[1..]);
    CollapseKeepsHead(s[0], EscapePlus(s[1..]));
    assert s == [s[0]] + s[1..];
    CollapseKeepsHead(s[0], s[1..]);
    EscapePlusConcat([s[0]], CollapseEscapedPercent(s[1..]));
  }

  /** `%` written as `%25`, as the URI constructor quotes it. */
  function EscapePercent(s: string): (r: string)
    ensures |r| >= |s|
    decreases |s|
  {
    if |s| == 0 then "" else (if s[0] == '%' then "%25" else [s[0]]) + EscapePercent(s[1..])
  }

  /** Quoting `%` brings in no `+`. */
  lemma {:induction false} EscapePercentKeepsPlusFree(s: string)
    requires '+' !in s
    ensures '+' !in EscapePercent(s)
    decreases |s|
  {
    if |s| > 0 {
      EscapePercentKeepsPlusFree(s[1..]);
    }
  }

  /** Every `%` of `s` starts a percent-encoded octet: it is followed by two hex digits. */
  predicate WellEncoded(s: string)
    decreases |s|
  {
    if |s| == 0 then true
    else if s[0] == '%' then |s| >= 3 && IsHexDigit(s[1]) && IsHexDigit(s[2]) && WellEncoded(s[3..])
    else WellEncoded(s[1..])
  }

  /**
   * The pass repairs double escaping: applied to an already percent-encoded
   * string whose every `%` was quoted again as `%25`, it gives the string back.
   */
  lemma {:induction false} CollapseUndoesDoubleEscaping(s: string)
    requires WellEncoded(s)
    ensures CollapseEscapedPercent(EscapePercent(s)) == s
    decreases |s|
  {
    if |s| > 0 {
      var e := EscapePercent(s);
      if s[0] == '%' {
        assert EscapePercent(s[1..]) == [s[1]] + EscapePercent(s[2..]);
        assert EscapePercent(s[2..]) == [s[2]] + EscapePercent(s[3..]);
        assert e == "%25" + [s[1], s[2]] + EscapePercent(s[3..]);
        assert e[5..] == EscapePercent(s[3..]);
        CollapseUndoesDoubleEscaping(s[3..]);
        assert s == ['%', s[1], s[2]] + s[3..];
      } else {
        assert e[1..] == EscapePercent(s[1..]);
        CollapseUndoesDoubleEscaping(s[1..]);
        assert s == [s[0]] + s[1..];
      }
    }
  }

  /**
   * The intent of `normalizeToString`: a web URL whose text is already
   * percent-encoded and free of `+`, and which the URI step quotes once more
   * (every `%` written as `%25`), comes back as that text.
   */
  lemma NormalizeRepairsDoubleEscaping(url: Url, uriToAscii: Url -> Option<string>, w: string)
    requires IsWebProtocol(url.protocol)
    requires WellEncoded(w) && '+' !in w
    requires uriToAscii(url) == Some(EscapePercent(w))
    ensures NormalizeToString(url, uriToAscii) == Ok(w)
  {
    EscapePercentKeepsPlusFree(w);
    EscapePlusRemovesPlus(EscapePercent(w));
    CollapseUndoesDoubleEscaping(w);
  }

  /** `a%2520b` becomes `a%20b`. */
  lemma DoubleEscapeExample(s: string)
    requires s == "a%2520b"
    ensures CollapseEscapedPercent(s) == "a%20b"
  {
    var x := s[1..];
    assert s == ['a'] + x;
    CollapseKeepsHead('a', x);
    assert EscapedPercentAt(x) && x[5..] == ['b'] + "";
    CollapseKeepsHead('b', "");
  }

  /** One pass only: `%252541` becomes `%2541`, which is not collapsed again. */
  lemma SinglePassExample(s: string)
    requires s == "%252541"
    ensures CollapseEscapedPercent(s) == "%2541"
  {
    assert EscapedPercentAt(s);
    var x := s[5..];
    assert x == ['4'] + (['1'] + "");
    CollapseKeepsHead('4', ['1'] + "");
    CollapseKeepsHead('1', "");
  }

  /** `a+b` becomes `a%2Bb`. */
  lemma PlusExample(s: string)
    requires s == "a+b"
    ensures CollapseEscapedPercent(EscapePlus(s)) == "a%2Bb"
  {
    assert s == ['a'] + ['+'] + ['b'];
    EscapePlusConcat(['a'] + ['+'], ['b']);
    EscapePlusConcat(['a'], ['+']);
    var t := EscapePlus(s);
    assert t == ['a'] + (['%'] + (['2'] + (['B'] + (['b'] + ""))));
    CollapseKeepsHead('a', ['%'] + (['2'] + (['B'] + (['b'] + ""))));
    CollapseKeepsHead('%', ['2'] + (['B'] + (['b'] + "")));
    CollapseKeepsHead('2', ['B'] + (['b'] + ""));
    CollapseKeepsHead('B', ['b'] + "");
    CollapseKeepsHead('b', "");
  }
}
