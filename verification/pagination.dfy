/** Next-page extraction and cursor choice (main.go, the top of the crawl
    loop). The `Link` response header is searched with the regular
    expression `<.*?>`; the first match with its angle brackets stripped is
    the cursor for the next request. An empty cursor requests the fixed
    first page; any other cursor is requested as it is. */
module Pagination {
  import opened Wrappers
  import opened GoStrings

  /** The URL requested while the cursor is empty. */
  const FirstPageURL: string := "https://api.github.com/users?per_page=100"

  /** The URL fetched for a cursor. */
  function RequestURL(cursor: string): (url: string)
    ensures |url| > 0
    ensures |cursor| == 0 ==> url == FirstPageURL
    ensures |cursor| > 0 ==> url == cursor
  {
    if |cursor| == 0 then FirstPageURL else cursor
  }

  /** `<.*?>` can match `h[i..j+1]`: a `<` at i, a `>` at j, and no line
      break strictly between them (`.` does not match a newline). */
  predicate Span(h: string, i: int, j: int) {
    0 <= i < j < |h| && h[i] == '<' && h[j] == '>' &&
    forall k :: i < k < j ==> h[k] != '\n'
  }

  /** The first `>` at or after `j`, provided no line break comes first. */
  function CloseFrom(h: string, j: nat): (r: Option<nat>)
    requires j <= |h|
    ensures r.Some? ==> j <= r.value < |h| && h[r.value] == '>'
    ensures r.Some? ==> forall m :: j <= m < r.value ==> h[m] != '>' && h[m] != '\n'
    ensures r.None? ==> forall m :: j <= m < |h| && h[m] == '>' ==>
                          exists k :: j <= k < m && h[k] == '\n'
    decreases |h| - j
  {
    if j == |h| then None
    else if h[j] == '>' then Some(j)
    else if h[j] == '\n' then None
    else CloseFrom(h, j + 1)
  }

  /** The match of `<.*?>` searched from position `from`: the leftmost
      start, and for that start the shortest match. */
  function MatchFrom(h: string, from: nat): (r: Option<(nat, nat)>)
    requires from <= |h|
    ensures r.Some? ==> from <= r.value.0 && Span(h, r.value.0, r.value.1)
    ensures r.Some? ==> forall a, b :: from <= a < r.value.0 ==> !Span(h, a, b)
    ensures r.Some? ==> forall b :: b < r.value.1 ==> !Span(h, r.value.0, b)
    ensures r.None? ==> forall a, b :: from <= a ==> !Span(h, a, b)
    ensures r.Some? ==> forall m :: r.value.0 < m < r.value.1 ==> h[m] != '>' && h[m] != '\n'
    decreases |h| - from
  {
    if from == |h| then None
    else if h[from] != '<' then MatchFrom(h, from + 1)
    else match CloseFrom(h, from + 1)
      case Some(j) => Some((from, j))
      case None => MatchFrom(h, from + 1)
  }

  /** The next cursor carried by a `Link` header: the first match of
      `<.*?>` without its brackets, or `None` when nothing matches (where
      the source indexes the empty match list and panics). */
  function NextLink(h: string): (r: Option<string>)
    ensures r.Some? <==> exists i, j :: Span(h, i, j)
    ensures r.Some? ==> '>' !in r.value && '\n' !in r.value
    ensures r.Some? ==> exists i, j :: Span(h, i, j) && r.value == h[i + 1..j] &&
                          (forall a, b :: a < i ==> !Span(h, a, b)) &&
                          (forall b :: b < j ==> !Span(h, i, b))
  {
    match MatchFrom(h, 0)
      case None => None
      case Some((i, j)) =>
        Some(h[i + 1..j])
  }

  /** A reference reading without regular expressions: the text between
      the first `<` and the first `>` after it. */
  function FirstBracketed(h: string): Option<string> {
    var i := Index(h, "<");
    if i < 0 then None
    else
      var k := Index(h[i + 1..], ">");
      if k < 0 then None else Some(h[i + 1..i + 1 + k])
  }

  lemma OccursSingle(s: string, c: char, i: int)
    ensures OccursAt(s, [c], i) <==> 0 <= i < |s| && s[i] == c
  {
    if OccursAt(s, [c], i) {
      assert s[i..i + 1][0] == s[i];
    }
    if 0 <= i < |s| && s[i] == c {
      assert s[i..i + 1] == [c];
    }
  }

  /** `Index` for a one-character pattern finds the first occurrence. */
  lemma IndexChar(s: string, c: char)
    ensures Index(s, [c]) == -1 <==> forall m :: 0 <= m < |s| ==> s[m] != c
    ensures Index(s, [c]) >= 0 ==> s[Index(s, [c])] == c
    ensures forall m :: 0 <= m < Index(s, [c]) ==> s[m] != c
  {
    IndexLeftmost(s, [c]);
    forall m | 0 <= m < |s| ensures OccursAt(s, [c], m) <==> s[m] == c {
      OccursSingle(s, c, m);
    }
    if Index(s, [c]) >= 0 {
      OccursSingle(s, c, Index(s, [c]));
    }
  }

  /** With no `<` there is no match. */
  lemma NoOpenNoLink(h: string)
    requires Index(h, "<") < 0
    ensures NextLink(h) == None
  {
    IndexChar(h, '<');
  }

  /** With no `>` after the first `<` there is no match. */
  lemma NoCloseNoLink(h: string)
    requires Index(h, "<") >= 0
    requires Index(h[Index(h, "<") + 1..], ">") < 0
    ensures NextLink(h) == None
  {
    IndexChar(h, '<');
    var i := Index(h, "<");
    var t := h[i + 1..];
    IndexChar(t, '>');
  }

  /** In a text without line breaks, any `<` before a `>` is a span. */
  lemma SpanWithoutBreaks(h: string, i: int, j: int)
    requires '\n' !in h
    requires 0 <= i < j < |h| && h[i] == '<' && h[j] == '>'
    ensures Span(h, i, j)
  {
  }

  /** A span from a first `<` to the first `>` after it is the match. */
  lemma LinkFromSpan(h: string, i: int, j: int)
    requires Span(h, i, j)
    requires forall a :: 0 <= a < i ==> h[a] != '<'
    requires forall m :: i < m < j ==> h[m] != '>'
    ensures NextLink(h) == Some(h[i + 1..j])
  {
    var r := MatchFrom(h, 0);
  }

  /** Where the reference reading finds its brackets, in positions of h. */
  lemma BracketPositions(h: string, i: int, k: int)
    requires 0 <= i == Index(h, "<")
    requires 0 <= k == Index(h[i + 1..], ">")
    ensures i + 1 + k < |h| && h[i] == '<' && h[i + 1 + k] == '>'
    ensures forall m :: 0 <= m < i ==> h[m] != '<'
    ensures forall m :: i < m < i + 1 + k ==> h[m] != '>'
  {
    IndexChar(h, '<');
    var t := h[i + 1..];
    IndexChar(t, '>');
    ShiftedFirst(h, t, i, k, '>');
  }

  /** The first `c` in the text after position i, in positions of h. */
  lemma ShiftedFirst(h: string, t: string, i: nat, k: nat, c: char)
    requires i < |h| && t == h[i + 1..] && k < |t|
    requires t[k] == c
    requires forall m :: 0 <= m < k ==> t[m] != c
    ensures h[i + 1 + k] == c
    ensures forall m :: i < m < i + 1 + k ==> h[m] != c
  {
    forall m | i < m < i + 1 + k ensures h[m] != c {
      assert h[m] == t[m - i - 1];
    }
  }

  /** On a header without line breaks (which HTTP header values are) the
      regular expression picks out exactly the text between the first `<`
      and the first `>` after it. */
  lemma NextLinkIsFirstBracketed(h: string)
    requires '\n' !in h
    ensures NextLink(h) == FirstBracketed(h)
  {
    var i := Index(h, "<");
    if i < 0 {
      NoOpenNoLink(h);
    } else if Index(h[i + 1..], ">") < 0 {
      NoCloseNoLink(h);
    } else {
      var k := Index(h[i + 1..], ">");
      BracketPositions(h, i, k);
      SpanWithoutBreaks(h, i, i + 1 + k);
      LinkFromSpan(h, i, i + 1 + k);
    }
  }

  /** The header of a middle page in the form the service sends it: the
      first entry is the next page. */
  lemma NextLinkExample()
    ensures NextLink("<p2>, <p1>") == Some("p2")
  {
    var h := "<p2>, <p1>";
    LinkFromSpan(h, 0, 3);
    assert h[1..3] == "p2";
  }
}
