/** The batch statement built for one page of users (main.go, the body of
    the crawl loop after decoding): one `(?,?,?,?,?,?)` row per user appended
    to a fixed INSERT header, the six fields of every user flattened into the
    argument list in the same order, the trailing comma trimmed, and the
    markers renumbered by `ReplaceSQL`. */
module Batch {
  import opened GoStrings
  import opened Placeholders

  /** One decoded element of the API's JSON array (the `User` struct). */
  datatype User = User(
    id: Int64,
    login: string,
    htmlURL: string,
    avatarURL: string,
    userType: string,
    siteAdmin: bool)

  /** A statement argument, as the driver receives it through `interface{}`. */
  datatype Value = IntValue(i: Int64) | TextValue(t: string) | BoolValue(b: bool)

  /** A prepared statement and the arguments it is executed with. */
  datatype Insert = Insert(sql: string, args: seq<Value>)

  /** The number of fields of `User`, so of arguments per row. */
  const FieldsPerUser: nat := 6

  /** The INSERT header of main.go:92, assembled from the pieces below. */
  const Header: string := Piece1 + Piece2 + Piece3 + Piece4 + Piece5 + Piece6

  // The header is split only so that showing it free of `$`, digits and
  // markers takes a handful of short character-by-character checks rather
  // than one long one.
  const Piece1: string := "INSERT INTO "
  const Piece2: string := "users(id, "
  const Piece3: string := "login, html_url, "
  const Piece4: string := "avatar_url, "
  const Piece5: string := "type, site_admin"
  const Piece6: string := ") VALUES"

  /** What the loop appends per user, before the final comma is trimmed. */
  const RowTemplate: string := "(?,?,?,?,?,?)"

  /** A user's arguments, in the column order of the header. */
  function Fields(u: User): (r: seq<Value>)
    ensures |r| == FieldsPerUser
  {
    [IntValue(u.id), TextValue(u.login), TextValue(u.htmlURL),
     TextValue(u.avatarURL), TextValue(u.userType), BoolValue(u.siteAdmin)]
  }

  /** The text the loop has appended to the header after n users. */
  function Appended(n: nat): string {
    if n == 0 then "" else Appended(n - 1) + RowTemplate + ","
  }

  /** `vals` after the loop: the fields of every user, user after user. User
      i's fields sit at positions 6i .. 6i+5. */
  function Args(users: seq<User>): (r: seq<Value>)
    ensures |r| == FieldsPerUser * |users|
    ensures forall i :: 0 <= i < |users| ==> r[FieldsPerUser * i..FieldsPerUser * i + FieldsPerUser] == Fields(users[i])
  {
    if |users| == 0 then []
    else
      var front := users[..|users| - 1];
      var r := Args(front) + Fields(users[|users| - 1]);
      ArgsBlocks(users, Args(front), r);
      r
  }

  /** Appending the last user's fields keeps every earlier user's block in
      place and puts the new block right after them. */
  lemma ArgsBlocks(users: seq<User>, a: seq<Value>, r: seq<Value>)
    requires |users| > 0
    requires |a| == FieldsPerUser * (|users| - 1)
    requires forall i :: 0 <= i < |users| - 1 ==> a[FieldsPerUser * i..FieldsPerUser * i + FieldsPerUser] == Fields(users[i])
    requires r == a + Fields(users[|users| - 1])
    ensures |r| == FieldsPerUser * |users|
    ensures forall i :: 0 <= i < |users| ==> r[FieldsPerUser * i..FieldsPerUser * i + FieldsPerUser] == Fields(users[i])
  {
    var n := |users| - 1;
    forall i | 0 <= i < |users|
      ensures r[FieldsPerUser * i..FieldsPerUser * i + FieldsPerUser] == Fields(users[i])
    {
      if i < n {
        assert FieldsPerUser * i + FieldsPerUser <= FieldsPerUser * n;
        assert r[FieldsPerUser * i..FieldsPerUser * i + FieldsPerUser] == a[FieldsPerUser * i..FieldsPerUser * i + FieldsPerUser];
      } else {
        assert FieldsPerUser * i == |a|;
      }
    }
  }

  /** `sqlStr` before renumbering: header, rows, trailing comma trimmed.
      For k users it is the header followed by k row templates joined by
      commas, with no trailing comma; for no user it is the header alone. */
  function Template(users: seq<User>): (r: string)
    ensures r == Header + Rows(|users|)
  {
    HeaderEndsInS();
    TrimmedRows(Header, |users|);
    TrimSuffix(Header + Appended(|users|), ",")
  }

  /** The statement and arguments the crawler prepares for one page: no
      `?` survives, and there are six arguments per user. */
  function BuildInsert(users: seq<User>): (r: Insert)
    ensures '?' !in r.sql
    ensures |r.args| == FieldsPerUser * |users|
  {
    ReplaceSQLRenumbers(Template(users), '?');
    Insert(ReplaceSQL(Template(users), "?"), Args(users))
  }

  // ---------------------------------------------------------------------------
  // Shape of the statement

  /** n copies of the row template separated by commas. */
  function Rows(n: nat): string {
    Joined(RowTemplate, n)
  }

  /** n copies of `row` separated by commas. */
  function Joined(row: string, n: nat): string {
    if n == 0 then "" else if n == 1 then row else Joined(row, n - 1) + "," + row
  }

  lemma {:induction false} AppendedIsRowsAndComma(n: nat)
    requires n > 0
    ensures Appended(n) == Rows(n) + ","
  {
    if n > 1 {
      AppendedIsRowsAndComma(n - 1);
    }
  }

  /** After any text not ending in a comma, the loop's output with the
      trailing comma trimmed is the comma-joined rows. */
  lemma TrimmedRows(h: string, n: nat)
    requires |h| > 0 && h[|h| - 1] != ','
    ensures TrimSuffix(h + Appended(n), ",") == h + Rows(n)
  {
    if n == 0 {
      assert h + Appended(0) == h;
    } else {
      AppendedIsRowsAndComma(n);
      assert h + Appended(n) == (h + Rows(n)) + ",";
      TrimSuffixAppended(h + Rows(n), ",");
    }
  }

  lemma HeaderEndsInS()
    ensures |Header| > 0 && Header[|Header| - 1] == 'S'
  {
    assert Piece6[|Piece6| - 1] == 'S';
  }

  /** Text with no `$` and no digit. */
  predicate Plain(s: string) {
    forall i :: 0 <= i < |s| ==> s[i] != '$' && !IsDigit(s[i])
  }

  lemma PlainAppend(a: string, b: string)
    requires Plain(a) && Plain(b)
    ensures Plain(a + b)
  {
  }

  /** Text with no `$`, no digit and no marker. */
  predicate Literal(s: string) {
    forall i :: 0 <= i < |s| ==> s[i] != '$' && s[i] != '?' && !IsDigit(s[i])
  }

  lemma HeaderIsPlain()
    ensures Plain(Header) && Occurrences(Header, '?') == 0 && '?' !in Header
  {
    Piece1IsLiteral();
    Piece2IsLiteral();
    Piece3IsLiteral();
    Piece4IsLiteral();
    Piece5IsLiteral();
    Piece6IsLiteral();
    LiteralAppend(Piece1, Piece2);
    LiteralAppend(Piece1 + Piece2, Piece3);
    LiteralAppend(Piece1 + Piece2 + Piece3, Piece4);
    LiteralAppend(Piece1 + Piece2 + Piece3 + Piece4, Piece5);
    LiteralAppend(Piece1 + Piece2 + Piece3 + Piece4 + Piece5, Piece6);
    LiteralIsPlain(Header);
  }

  lemma LiteralAppend(a: string, b: string)
    requires Literal(a) && Literal(b)
    ensures Literal(a + b)
  {
  }

  lemma LiteralIsPlain(s: string)
    requires Literal(s)
    ensures Plain(s) && Occurrences(s, '?') == 0
  {
    assert '?' !in s;
  }

  lemma Piece1IsLiteral() ensures Literal(Piece1) {}
  lemma Piece2IsLiteral() ensures Literal(Piece2) {}
  lemma Piece3IsLiteral() ensures Literal(Piece3) {}
  lemma Piece4IsLiteral() ensures Literal(Piece4) {}
  lemma Piece5IsLiteral() ensures Literal(Piece5) {}
  lemma Piece6IsLiteral() ensures Literal(Piece6) {}

  lemma {:induction false} RowsArePlain(n: nat)
    ensures Plain(Rows(n)) && Occurrences(Rows(n), '?') == FieldsPerUser * n
  {
    assert Plain(RowTemplate) && Occurrences(RowTemplate, '?') == 6;
    if n > 1 {
      RowsArePlain(n - 1);
      PlainAppend(Rows(n - 1), ",");
      PlainAppend(Rows(n - 1) + ",", RowTemplate);
      assert multiset(Rows(n)) == multiset(Rows(n - 1)) + multiset(",") + multiset(RowTemplate);
    }
  }

  lemma PlainHasNoMarkerBeforeDigit(s: string, c: char)
    requires Plain(s)
    ensures '$' !in s && MarkersNotBeforeDigit(s, c)
  {
  }

  /** After renumbering, PostgreSQL reads the parameters $1 .. $6k in order
      and the argument list has exactly 6k entries, so parameter $j is bound
      to argument j-1: user i's field f (in header order) to $(6i+f+1). No
      generic marker is left. */
  lemma ParametersMatchArgs(users: seq<User>)
    ensures Parameters(BuildInsert(users).sql) == Range(1, |BuildInsert(users).args|)
    ensures |BuildInsert(users).args| == FieldsPerUser * |users|
    ensures '?' !in BuildInsert(users).sql
  {
    var t := Template(users);
    TemplateIsPlain(users);
    PlainHasNoMarkerBeforeDigit(t, '?');
    ReplaceSQLRenumbers(t, '?');
    ParametersOfRenumbered(t, '?', 1);
  }

  lemma TemplateIsPlain(users: seq<User>)
    ensures Plain(Template(users))
    ensures Occurrences(Template(users), '?') == FieldsPerUser * |users|
  {
    HeaderIsPlain();
    RowsAfterPlain(Header, |users|);
  }

  /** Rows after a plain, marker-free text add six markers per row and
      nothing else. */
  lemma RowsAfterPlain(h: string, n: nat)
    requires Plain(h) && Occurrences(h, '?') == 0
    ensures Plain(h + Rows(n))
    ensures Occurrences(h + Rows(n), '?') == FieldsPerUser * n
  {
    RowsArePlain(n);
    PlainAppend(h, Rows(n));
    assert multiset(h + Rows(n)) == multiset(h) + multiset(Rows(n));
  }

  /** A page with no users yields the bare header and no argument. */
  lemma EmptyPage()
    ensures BuildInsert([]) == Insert(Header, [])
  {
    HeaderIsPlain();
    NoRowsUnchanged(Header);
  }

  /** With no row, a marker-free text is prepared as it is. */
  lemma NoRowsUnchanged(h: string)
    requires '?' !in h
    ensures ReplaceSQL(h + Rows(0), "?") == h
  {
    assert h + Rows(0) == h;
    ReplaceSQLRenumbers(h, '?');
    RenumberedUnchanged(h, '?', Token, 1);
  }

  // ---------------------------------------------------------------------------
  // The statement as PostgreSQL receives it

  /** The row `(t_k,t_k+1,...,t_k+5)` that one user's markers become. */
  function RowText(tok: nat -> string, k: nat): string {
    "(" + (tok(k) + ("," + (tok(k + 1) + ("," + (tok(k + 2) + ("," + (tok(k + 3) +
      ("," + (tok(k + 4) + ("," + (tok(k + 5) + ")")))))))))))
  }

  /** n rendered rows numbered from k, joined by commas: row i (from 0)
      holds the tokens from k + 6i on (`Stride` is that product, see
      `StrideIsProduct`). */
  function Rendered(tok: nat -> string, k: nat, n: nat): string {
    JoinedRendered((j: nat) => RowText(tok, j), k, FieldsPerUser, n)
  }

  /** f(k), f(k+w), ..., f(k+(n-1)w) separated by commas. */
  function JoinedRendered(f: nat -> string, k: nat, w: nat, n: nat): string {
    if n == 0 then ""
    else if n == 1 then f(k)
    else JoinedRendered(f, k, w, n - 1) + "," + f(k + Stride(w, n - 1))
  }

  /** w·n, by repeated addition. */
  function Stride(w: nat, n: nat): nat {
    if n == 0 then 0 else Stride(w, n - 1) + w
  }

  lemma {:induction false} StrideIsProduct(w: nat, n: nat)
    ensures Stride(w, n) == w * n
  {
    if n > 0 {
      StrideIsProduct(w, n - 1);
      assert w * (n - 1) + w == w * n;
    }
  }

  /** Renumbering one row template from k gives the row with tokens k .. k+5. */
  lemma RowScan(tok: nat -> string, k: nat)
    ensures Renumbered(RowTemplate, '?', tok, k) == RowText(tok, k)
  {
    // The template as a chain of single characters, scanned from its end.
    // Spelled out step by step because, unaided, the verifier spends most
    // of its resource budget unfolding the scan over the literal.
    var c := '?';
    var s12 := [')'];
    var s11 := ['?'] + s12;
    var s10 := [','] + s11;
    var s9 := ['?'] + s10;
    var s8 := [','] + s9;
    var s7 := ['?'] + s8;
    var s6 := [','] + s7;
    var s5 := ['?'] + s6;
    var s4 := [','] + s5;
    var s3 := ['?'] + s4;
    var s2 := [','] + s3;
    var s1 := ['?'] + s2;
    var s0 := ['('] + s1;
    assert s0 == RowTemplate;
    assert Renumbered([], c, tok, k + 6) == "";
    RenumberedCons(')', [], c, tok, k + 6);
    var r12 := Renumbered(s12, c, tok, k + 6);
    assert r12 == ")";
    RenumberedCons('?', s12, c, tok, k + 5);
    var r11 := tok(k + 5) + r12;
    assert Renumbered(s11, c, tok, k + 5) == r11;
    RenumberedCons(',', s11, c, tok, k + 5);
    var r10 := "," + r11;
    assert Renumbered(s10, c, tok, k + 5) == r10;
    RenumberedCons('?', s10, c, tok, k + 4);
    var r9 := tok(k + 4) + r10;
    assert Renumbered(s9, c, tok, k + 4) == r9;
    RenumberedCons(',', s9, c, tok, k + 4);
    var r8 := "," + r9;
    assert Renumbered(s8, c, tok, k + 4) == r8;
    RenumberedCons('?', s8, c, tok, k + 3);
    var r7 := tok(k + 3) + r8;
    assert Renumbered(s7, c, tok, k + 3) == r7;
    RenumberedCons(',', s7, c, tok, k + 3);
    var r6 := "," + r7;
    assert Renumbered(s6, c, tok, k + 3) == r6;
    RenumberedCons('?', s6, c, tok, k + 2);
    var r5 := tok(k + 2) + r6;
    assert Renumbered(s5, c, tok, k + 2) == r5;
    RenumberedCons(',', s5, c, tok, k + 2);
    var r4 := "," + r5;
    assert Renumbered(s4, c, tok, k + 2) == r4;
    RenumberedCons('?', s4, c, tok, k + 1);
    var r3 := tok(k + 1) + r4;
    assert Renumbered(s3, c, tok, k + 1) == r3;
    RenumberedCons(',', s3, c, tok, k + 1);
    var r2 := "," + r3;
    assert Renumbered(s2, c, tok, k + 1) == r2;
    RenumberedCons('?', s2, c, tok, k);
    var r1 := tok(k) + r2;
    assert Renumbered(s1, c, tok, k) == r1;
    RenumberedCons('(', s1, c, tok, k);
    assert Renumbered(s0, c, tok, k) == "(" + r1;
  }

  lemma {:induction false} JoinedOccurrences(row: string, n: nat)
    ensures Occurrences(Joined(row, n), '?') == Stride(Occurrences(row, '?'), n)
  {
    if n > 1 {
      JoinedOccurrences(row, n - 1);
      CommaJoin(Joined(row, n - 1), row);
    }
  }

  /** A comma adds no marker. */
  lemma CommaJoin(a: string, b: string)
    ensures Occurrences(a + "," + b, '?') == Occurrences(a, '?') + Occurrences(b, '?')
    ensures Occurrences(a + ",", '?') == Occurrences(a, '?')
  {
    assert multiset(a + "," + b) == multiset(a) + multiset(",") + multiset(b);
    assert multiset(a + ",") == multiset(a) + multiset(",");
    assert multiset(",")['?'] == 0;
  }

  /** Renumbering comma-joined copies of a row with w markers renders
      them one by one, each copy continuing where the previous stopped. */
  lemma {:induction false} JoinedRenumbered(row: string, w: nat, f: nat -> string, tok: nat -> string, k: nat, n: nat)
    requires Occurrences(row, '?') == w
    requires forall j :: Renumbered(row, '?', tok, j) == f(j)
    ensures Renumbered(Joined(row, n), '?', tok, k) == JoinedRendered(f, k, w, n)
  {
    if n == 1 {
      assert Renumbered(row, '?', tok, k) == f(k);
    } else if n > 1 {
      var m := Stride(w, n - 1);
      JoinedRenumbered(row, w, f, tok, k, n - 1);
      JoinedOccurrences(row, n - 1);
      CommaStep(Joined(row, n - 1), row, tok, k);
      assert Renumbered(row, '?', tok, k + m) == f(k + m);
    }
  }

  /** Renumbering across a comma: the part after it continues from the
      markers before it. */
  lemma CommaStep(front: string, row: string, tok: nat -> string, k: nat)
    ensures Renumbered(front + "," + row, '?', tok, k)
         == Renumbered(front, '?', tok, k) + "," + Renumbered(row, '?', tok, k + Occurrences(front, '?'))
  {
    var m := Occurrences(front, '?');
    CommaJoin(front, row);
    RenumberedUnchanged(",", '?', tok, k + m);
    RenumberedAppend(front, ",", '?', tok, k);
    RenumberedAppend(front + ",", row, '?', tok, k);
  }

  /** Renumbering the rows of k users from 1 renders row i (from 0) with
      the tokens 6i+1 .. 6i+6. */
  lemma RowsRendered(n: nat, tok: nat -> string)
    ensures Renumbered(Rows(n), '?', tok, 1) == Rendered(tok, 1, n)
  {
    var f := (j: nat) => RowText(tok, j);
    forall j: nat ensures Renumbered(RowTemplate, '?', tok, j) == f(j) {
      RowScan(tok, j);
    }
    JoinedOccurrences(RowTemplate, 1);
    JoinedRenumbered(RowTemplate, FieldsPerUser, f, tok, 1, n);
  }

  /** Text without markers before the rows is copied as it is. */
  lemma PrefixCopied(h: string, rest: string, tok: nat -> string)
    requires '?' !in h
    ensures Renumbered(h + rest, '?', tok, 1) == h + Renumbered(rest, '?', tok, 1)
  {
    RenumberedUnchanged(h, '?', tok, 1);
    RenumberedAppend(h, rest, '?', tok, 1);
    assert Occurrences(h, '?') == 0;
  }

  /** After any marker-free text not ending in a comma, the loop's rows,
      trimmed and renumbered from 1, are the rendered rows. */
  lemma RenderedAfter(h: string, n: nat, tok: nat -> string)
    requires |h| > 0 && h[|h| - 1] != ',' && '?' !in h
    ensures Renumbered(TrimSuffix(h + Appended(n), ","), '?', tok, 1) == h + Rendered(tok, 1, n)
  {
    TrimmedRows(h, n);
    PrefixCopied(h, Rows(n), tok);
    RowsRendered(n, tok);
  }

  /** The statement prepared for k users: the header, then for each user i
      (from 0) the row `($6i+1,...,$6i+6)`, rows joined by commas. */
  lemma StatementText(users: seq<User>)
    ensures BuildInsert(users).sql == Header + Rendered(Token, 1, |users|)
  {
    ReplaceSQLRenumbers(Template(users), '?');
    TemplateRendered(|users|);
  }

  lemma TemplateRendered(n: nat)
    ensures Renumbered(TrimSuffix(Header + Appended(n), ","), '?', Token, 1) == Header + Rendered(Token, 1, n)
  {
    HeaderEndsInS();
    HeaderIsPlain();
    RenderedAfter(Header, n, Token);
  }

  lemma FirstRow()
    ensures RowText(Token, 1) == "($1,$2,$3,$4,$5,$6)"
  {
  }

  /** One user: the statement has a single row `($1,...,$6)` bound to that
      user's six fields. */
  lemma OneUser(u: User)
    ensures BuildInsert([u]) == Insert(Header + "($1,$2,$3,$4,$5,$6)", Fields(u))
  {
    StatementText([u]);
    FirstRow();
    var r := Args([u]);
    assert r == r[0..6];
  }
}
