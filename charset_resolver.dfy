/**
 * The charset named by a Content-Type header value
 * (`AbstractURLHandler.getCharSetFromContentType`): the value of the last
 * `;`-separated parameter whose trimmed text starts with `charset=`, the key
 * compared without regard to case, or `ISO-8859-1`, the default of section
 * 3.7.1 of RFC 2616, when there is no such parameter or its value is empty.
 */
module CharsetResolver {
  import opened Wrappers
  import opened JavaStrings

  const DefaultCharset: string := "ISO-8859-1"
  const CharsetKey: string := "charset="

  /** `element.toLowerCase().startsWith("charset=")`. */
  predicate IsCharsetParam(element: string)
  {
    |element| >= |CharsetKey| && ToLower(element)[..|CharsetKey|] == CharsetKey
  }

  /**
   * The key is matched in any case: an element is a charset parameter exactly
   * when each of its first eight characters is that of `charset=` or of
   * `CHARSET=`.
   */
  lemma CharsetKeyAnyCase(element: string)
    ensures IsCharsetParam(element) <==>
              |element| >= |CharsetKey| &&
              forall k :: 0 <= k < |CharsetKey| ==> element[k] == CharsetKey[k] || element[k] == "CHARSET="[k]
  {
  }

  /** `element.substring("charset=".length())`: the value exactly as written. */
  function ParamValue(element: string): (v: string)
    requires IsCharsetParam(element)
    ensures element == element[..|CharsetKey|] + v
  {
    element[|CharsetKey|..]
  }

  /**
   * What the loop of `getCharSetFromContentType` leaves in `charSet` after
   * visiting `elements`: the value of the last charset parameter, or `None`.
   */
  function LastCharset(elements: seq<string>): Option<string>
    decreases |elements|
  {
    if |elements| == 0 then None
    else
      var e := Trim(elements[|elements| - 1]);
      if IsCharsetParam(e) then Some(ParamValue(e))
      else LastCharset(elements[..|elements| - 1])
  }

  /** `getCharSetFromContentType(contentType)`; `None` stands for a null header. */
  function CharsetOf(contentType: Option<string>): (r: string)
    ensures r != ""
  {
    var found := if contentType.Some? then LastCharset(JavaSplit(contentType.value, ';')) else None;
    if found.None? || found.value == "" then DefaultCharset else found.value
  }

  /** The loop of the source, proved to compute `CharsetOf`. */
  method GetCharSetFromContentType(contentType: Option<string>) returns (charSet: string)
    ensures charSet == CharsetOf(contentType)
    ensures charSet != ""
  {
    var found: Option<string> := None;
    if contentType.Some? {
      var elements := JavaSplit(contentType.value, ';');
      var i := 0;
      while i < |elements|
        invariant 0 <= i <= |elements|
        invariant found == LastCharset(elements[..i])
      {
        var element := Trim(elements[i]);
        if IsCharsetParam(element) {
          found := Some(ParamValue(element));
        }
        assert elements[..i + 1][..i] == elements[..i];
        i := i + 1;
      }
      assert elements[..|elements|] == elements;
    }
    if found.None? || found.value == "" {
      charSet := DefaultCharset;
    } else {
      charSet := found.value;
    }
  }

  /** Element `i` declares a charset and no later element does. */
  ghost predicate IsLastDeclaration(elements: seq<string>, i: int)
  {
    0 <= i < |elements| && IsCharsetParam(Trim(elements[i])) &&
    forall j :: i < j < |elements| ==> !IsCharsetParam(Trim(elements[j]))
  }

  /** `LastCharset` finds the value of the last declaring element. */
  lemma {:induction false} LastCharsetFindsLast(elements: seq<string>, i: int)
    requires IsLastDeclaration(elements, i)
    ensures LastCharset(elements) == Some(ParamValue(Trim(elements[i])))
    decreases |elements|
  {
    var n := |elements| - 1;
    if i < n {
      var init := elements[..n];
      assert !IsCharsetParam(Trim(elements[n]));
      assert IsLastDeclaration(init, i) by {
        forall j | i < j < |init| ensures !IsCharsetParam(Trim(init[j])) {
          assert init[j] == elements[j];
        }
      }
      LastCharsetFindsLast(init, i);
    }
  }

  /** `LastCharset` finds nothing exactly when no element declares a charset. */
  lemma {:induction false} LastCharsetNone(elements: seq<string>)
    ensures LastCharset(elements).None? <==>
            forall j :: 0 <= j < |elements| ==> !IsCharsetParam(Trim(elements[j]))
    decreases |elements|
  {
    if |elements| > 0 {
      var n := |elements| - 1;
      var init := elements[..n];
      LastCharsetNone(init);
      assert forall j :: 0 <= j < n ==> init[j] == elements[j];
    }
  }

  /** A null header yields the default. */
  lemma NullHeaderDefaults()
    ensures CharsetOf(None) == DefaultCharset
  {
  }

  /** A header without any `charset=` parameter yields the default. */
  lemma NoDeclarationDefaults(contentType: string)
    requires forall j :: 0 <= j < |JavaSplit(contentType, ';')| ==>
               !IsCharsetParam(Trim(JavaSplit(contentType, ';')[j]))
    ensures CharsetOf(Some(contentType)) == DefaultCharset
  {
    LastCharsetNone(JavaSplit(contentType, ';'));
  }

  /**
   * The last declaration in header order decides: its value, exactly as
   * written after the key, when it is not empty, and the default when it is
   * (an earlier non-empty declaration does not come back).
   */
  lemma LastDeclarationWins(contentType: string, i: int)
    requires IsLastDeclaration(JavaSplit(contentType, ';'), i)
    ensures var v := ParamValue(Trim(JavaSplit(contentType, ';')[i]));
            CharsetOf(Some(contentType)) == if v == "" then DefaultCharset else v
  {
    LastCharsetFindsLast(JavaSplit(contentType, ';'), i);
  }

  /** A header made of two parameters splits into exactly those two. */
  lemma TwoParameterHeader(first: string, second: string)
    requires ';' !in first && ';' !in second && second != ""
    ensures JavaSplit(first + [';'] + second, ';') == [first, second]
  {
    var h := first + [';'] + second;
    SplitAllAtFirst(first, ';', second);
    SplitAllNoSeparator(second, ';');
    assert h[|first|] == ';';
  }

  /** With one charset parameter last, its value is the answer. */
  lemma TrailingDeclaration(first: string, second: string)
    requires ';' !in first && ';' !in second && second != ""
    requires IsCharsetParam(Trim(second)) && ParamValue(Trim(second)) != ""
    ensures CharsetOf(Some(first + [';'] + second)) == ParamValue(Trim(second))
  {
    TwoParameterHeader(first, second);
    LastDeclarationWins(first + [';'] + second, 1);
  }

  /** A parameter written after one space trims to itself. */
  lemma SpacedParameter(p: string)
    requires p != [] && !IsTrimmed(p[0]) && !IsTrimmed(p[|p| - 1])
    ensures Trim([' '] + p) == p
  {
    assert ([' '] + p)[1..] == p;
    assert TrimLeft([' '] + p) == p;
  }

  /** A header `first; param` whose second parameter declares a charset names it. */
  lemma SpacedDeclaration(header: string, first: string, param: string)
    requires header == first + [';'] + ([' '] + param)
    requires ';' !in first && ';' !in param
    requires param != [] && !IsTrimmed(param[0]) && !IsTrimmed(param[|param| - 1])
    requires IsCharsetParam(param) && ParamValue(param) != ""
    ensures CharsetOf(Some(header)) == ParamValue(param)
  {
    SpacedParameter(param);
    TrailingDeclaration(first, [' '] + param);
  }

  /** `"text/html; charset=UTF-8"` names `UTF-8`. */
  lemma DeclaredCharsetExample(header: string)
    requires header == "text/html; charset=UTF-8"
    ensures CharsetOf(Some(header)) == "UTF-8"
  {
    var first, param := header[..9], header[11..];
    assert first == "text/html";
    assert param == "charset=UTF-8";
    assert ToLower(param)[..8] == CharsetKey;
    assert header == first + [';'] + ([' '] + param);
    SpacedDeclaration(header, first, param);
  }

  /** `"text/html"` has no charset parameter and names the default. */
  lemma UndeclaredCharsetExample(header: string)
    requires header == "text/html"
    ensures CharsetOf(Some(header)) == DefaultCharset
  {
    assert JavaSplit(header, ';') == [header];
    assert ToLower(header)[..|CharsetKey|] != CharsetKey by {
      assert ToLower(header)[0] == 't';
    }
    NoDeclarationDefaults(header);
  }

  /** The parameter `CHARSET=utf-16` declares `utf-16`. */
  lemma UpperKeyParameter(param: string)
    requires param == "CHARSET=utf-16"
    ensures ';' !in param && !IsTrimmed(param[0]) && !IsTrimmed(param[|param| - 1])
    ensures IsCharsetParam(param) && ParamValue(param) == "utf-16"
  {
    CharsetKeyAnyCase(param);
    assert param[8..] == "utf-16";
  }

  /** The key is matched without regard to case; the value keeps its case. */
  lemma KeyCaseIgnoredExample(header: string)
    requires header == "text/html; CHARSET=utf-16"
    ensures CharsetOf(Some(header)) == "utf-16"
  {
    var first, param := header[..9], header[11..];
    assert first == "text/html";
    assert param == "CHARSET=utf-16";
    UpperKeyParameter(param);
    assert header == first + [';'] + ([' '] + param);
    SpacedDeclaration(header, first, param);
  }
}
