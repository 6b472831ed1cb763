/**
 * Extraction of the OAuth authorization code from the redirect URL the user pastes
 * back (bidWinner.py:191). The Python expression indexes the second piece of a split,
 * so a URL without `code=` raises IndexError; here that is `None`.
 */
module AuthCode {
  import opened Wrappers
  import opened Text

  const CodeKey: string := "code="

  /** `redirect_url.split('code=')[1].split('&')[0]`, or `None` where Python raises. */
  function ExtractCode(url: string): Option<string> {
    var parts := Split(url, CodeKey);
    if |parts| < 2 then None else Some(Split(parts[1], "&")[0])
  }

  /** `c` is the code that starts at `start`: it is the text there, holds no `&` and no
      start of a `code=`, and stops at the end of the URL, at an `&`, or where the
      next `code=` starts. */
  predicate CodeAt(url: string, start: nat, c: string) {
    && start + |c| <= |url|
    && c == url[start..start + |c|]
    && '&' !in c
    && (forall j :: start <= j < start + |c| ==> !OccursAt(url, CodeKey, j))
    && (start + |c| == |url| || url[start + |c|] == '&' || OccursAt(url, CodeKey, start + |c|))
  }

  /** At most one string is the code at a given position. */
  lemma CodeAtUnique(url: string, start: nat, c1: string, c2: string)
    requires CodeAt(url, start, c1) && CodeAt(url, start, c2)
    ensures c1 == c2
  {
  }

  /** Extraction fails exactly when `code=` occurs nowhere in the URL. */
  lemma ExtractCodeFails(url: string)
    ensures ExtractCode(url).None? <==> forall j :: !OccursAt(url, CodeKey, j)
  {
    SplitHead(url, CodeKey);
    FindOccurs(url, CodeKey, 0);
    FindIsFirst(url, CodeKey, 0);
  }

  /** The second piece of `s.split(key)` is what follows the first `key`, up to the next. */
  lemma SecondPiece(s: string, key: string, k: nat)
    requires key != [] && OccursAt(s, key, k)
    requires forall j :: 0 <= j < k ==> !OccursAt(s, key, j)
    ensures |Split(s, key)| >= 2
    ensures Split(s, key)[1] == Split(s[k + |key|..], key)[0]
  {
    FindFirst(s, key, k);
    SplitHead(s, key);
  }

  /** A prefix of `s[start..]` free of `key` is free of `key` inside `s` too. */
  lemma PieceFacts(s: string, key: string, start: nat)
    requires key != [] && start <= |s|
    ensures var p := Split(s[start..], key)[0];
            && start + |p| <= |s| && p == s[start..start + |p|]
            && (forall j :: start <= j < start + |p| ==> !OccursAt(s, key, j))
            && (start + |p| == |s| || OccursAt(s, key, start + |p|))
  {
    var p := Split(s[start..], key)[0];
    SplitFirst(s[start..], key);
    forall j | start <= j < start + |p| ensures !OccursAt(s, key, j) {
      OccursInSuffix(s, key, start, j - start);
    }
    OccursInSuffix(s, key, start, |p|);
  }

  /** `p.split(d)[0]` holds no `d` and stops at the end of `p` or at a `d`. */
  lemma CutAtChar(p: string, d: char)
    ensures var c := Split(p, [d])[0];
            && |c| <= |p| && c == p[..|c|] && d !in c
            && (|c| == |p| || p[|c|] == d)
  {
    var c := Split(p, [d])[0];
    SplitFirst(p, [d]);
    forall i | 0 <= i < |c| ensures c[i] != d {
      OccursChar(p, d, i);
    }
    OccursChar(p, d, |c|);
  }

  /** With the first `code=` at position k, extraction succeeds and yields the code that
      starts right after it. */
  lemma ExtractCodeSpec(url: string, k: nat)
    requires OccursAt(url, CodeKey, k)
    requires forall j :: 0 <= j < k ==> !OccursAt(url, CodeKey, j)
    ensures ExtractCode(url).Some?
    ensures CodeAt(url, k + |CodeKey|, ExtractCode(url).value)
  {
    var start := k + |CodeKey|;
    SecondPiece(url, CodeKey, k);
    var p := Split(url[start..], CodeKey)[0];
    PieceFacts(url, CodeKey, start);
    CutAtChar(p, '&');
    var c := Split(p, "&")[0];
    assert ExtractCode(url) == Some(c);
    assert c == url[start..start + |c|];
  }

  /** No occurrence of `key` starts before `n` when its first character is absent there. */
  lemma NoOccurrenceBefore(s: string, key: string, n: nat)
    requires key != [] && n <= |s| && key[0] !in s[..n]
    ensures forall j :: 0 <= j < n ==> !OccursAt(s, key, j)
  {
  }

  /** A typical Google redirect: the code sits between `code=` and the next `&`. */
  lemma ExtractCodeExample(url: string)
    requires url == "https://x/?state=a&code=ABC123&scope=y"
    ensures ExtractCode(url) == Some("ABC123")
  {
    ExampleFirstKey(url);
    ExtractCodeSpec(url, 19);
    ExampleCode(url);
    CodeAtUnique(url, 24, "ABC123", ExtractCode(url).value);
  }

  lemma ExampleFirstKey(url: string)
    requires url == "https://x/?state=a&code=ABC123&scope=y"
    ensures OccursAt(url, CodeKey, 19)
    ensures forall j :: 0 <= j < 19 ==> !OccursAt(url, CodeKey, j)
  {
    assert url[19..24] == CodeKey;
    assert url[..19] == "https://x/?state=a&";
    NoOccurrenceBefore(url, CodeKey, 19);
  }

  lemma ExampleCode(url: string)
    requires url == "https://x/?state=a&code=ABC123&scope=y"
    ensures CodeAt(url, 24, "ABC123")
  {
    assert url[24..30] == "ABC123" && url[30] == '&';
    assert url[24..][..6] == "ABC123";
    NoOccurrenceBefore(url[24..], CodeKey, 6);
    forall j | 24 <= j < 30 ensures !OccursAt(url, CodeKey, j) {
      OccursInSuffix(url, CodeKey, 24, j - 24);
    }
  }
}
