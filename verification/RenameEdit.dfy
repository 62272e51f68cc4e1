/** Rewriting the tokens of an SQL statement in place, rightmost first, within a buffer of fixed size. */
module RenameEdit {

  // A token of the statement: where it starts and how long it is.
  datatype Token = Token(off: nat, n: nat)

  // Replace tokens by a new name, quoted always or only where needed, or turn double-quoted strings into
  // single-quoted ones.
  datatype Mode = Rename(zNew: string, bQuote: bool) | Requote

  const NUL := '\0'

  predicate NoNul(s: string) { forall i | 0 <= i < |s| :: s[i] != NUL }

  /** sqlite3IsIdChar */
  predicate IsIdChar(c: char) {
    'a' <= c <= 'z' || 'A' <= c <= 'Z' || '0' <= c <= '9' || c == '_' || c == '$' || c as int >= 0x80
  }

  // s with every q doubled, as the %w and %Q conversions do.
  function Doubled(s: string, q: char): (r: string)
    ensures |s| <= |r| <= 2 * |s| && (NoNul(s) && q != NUL ==> NoNul(r))
  {
    if s == "" then "" else (if s[0] == q then [q, q] else [s[0]]) + Doubled(s[1..], q)
  }

  // The new name between double quotes.
  function Quoted(zNew: string): string { "\"" + Doubled(zNew, '\"') + "\"" }

  // sqlite3Dequote: drop the quotes around a string and undo doubling inside it.
  function Dequoted(s: string): (r: string)
    ensures |s| >= 1 ==> |r| < |s| || r == s
    ensures |s| >= 2 && s[0] == '\"' ==> |r| <= |s| - 1
    ensures NoNul(s) ==> NoNul(r)
  {
    if s == "" || s[0] !in "\"\'`[" then s else Undouble(s[1..], if s[0] == '[' then ']' else s[0])
  }

  // s up to the first q that is not doubled, with doubled ones halved.
  function Undouble(s: string, q: char): (r: string)
    ensures |r| <= |s| && (|s| >= 1 && s[|s| - 1] == q ==> |r| < |s|) && (NoNul(s) ==> NoNul(r))
  {
    if s == "" then ""
    else if s[0] != q then [s[0]] + Undouble(s[1..], q)
    else if |s| >= 2 && s[1] == q then [q] + Undouble(s[2..], q)
    else ""
  }

  lemma UndoubleStep(c: char, m: string, q: char)
    ensures c != q ==> Undouble([c] + m, q) == [c] + Undouble(m, q)
    ensures Undouble([q, q] + m, q) == [q] + Undouble(m, q)
    ensures m == "" || m[0] != q ==> Undouble([q] + m, q) == ""
  {
    assert ([c] + m)[1..] == m && ([q, q] + m)[2..] == m;
  }

  lemma {:induction false} UndoubleDoubled(z: string, q: char, rest: string)
    requires rest == "" || rest[0] != q
    ensures Undouble(Doubled(z, q) + [q] + rest, q) == z
  {
    hide Undouble;
    var s := Doubled(z, q) + [q] + rest;
    if z == "" {
      assert s == [q] + rest;
      UndoubleStep(q, rest, q);
    } else {
      var m := Doubled(z[1..], q) + [q] + rest;
      UndoubleDoubled(z[1..], q, rest);
      UndoubleStep(z[0], m, q);
      assert s == (if z[0] == q then [q, q] else [z[0]]) + m;
      assert z == [z[0]] + z[1..];
    }
  }

  // A string between quotes is read back, whatever follows it that is not the same quote.
  lemma DequotedDoubled(z: string, q: char, rest: string)
    requires (q == '\"' || q == '\'') && (rest == "" || rest[0] != q)
    ensures Dequoted([q] + (Doubled(z, q) + [q] + rest)) == z
  {
    hide Doubled, Undouble;
    var s := Doubled(z, q) + [q] + rest;
    assert ([q] + s)[1..] == s;
    UndoubleDoubled(z, q, rest);
  }

  // The character after a token; the statement ends with a NUL.
  function After(sql: string, t: Token): char { if t.off + t.n < |sql| then sql[t.off + t.n] else NUL }

  predicate InSql(sql: string, t: Token) { t.n >= 1 && t.off + t.n <= |sql| }

  // What a token is replaced by.
  function Replacement(sql: string, mode: Mode, t: Token): string
    requires InSql(sql, t)
  {
    match mode
    case Rename(zNew, bQuote) =>
      if !bQuote && IsIdChar(sql[t.off]) then zNew
      else if After(sql, t) == '\"' then Quoted(zNew) + " " else Quoted(zNew)
    case Requote =>
      "\'" + Doubled(Dequoted(sql[t.off..t.off + t.n]), '\'') + "\'" + if After(sql, t) == '\'' then " " else ""
  }

  // The three kinds of replacement.
  lemma ReplacementIs(sql: string, mode: Mode, t: Token)
    requires InSql(sql, t)
    ensures match mode
            case Rename(zNew, bQuote) =>
              if !bQuote && IsIdChar(sql[t.off]) then Replacement(sql, mode, t) == zNew
              else
                && Replacement(sql, mode, t) == Quoted(zNew) + (if After(sql, t) == '\"' then " " else "")
                && Quoted(zNew) == "\"" + Doubled(zNew, '\"') + "\""
            case Requote =>
              Replacement(sql, mode, t) == "\'" + Doubled(Dequoted(sql[t.off..t.off + t.n]), '\'') + "\'"
                                           + if After(sql, t) == '\'' then " " else ""
  {
    hide Doubled, Dequoted;
    assert mode.Rename? ==> Quoted(mode.zNew) + "" == Quoted(mode.zNew);
  }

  lemma Rejoined(a: string, q: char, space: string, rest: string)
    ensures ([q] + a + [q] + space) + rest == [q] + (a + [q] + (space + rest))
  {
  }

  lemma NewName(sql: string, mode: Mode, t: Token)
    requires InSql(sql, t) && mode.Rename? && (mode.bQuote || !IsIdChar(sql[t.off]))
    ensures Replacement(sql, mode, t)
            == ['\"'] + Doubled(mode.zNew, '\"') + ['\"'] + if After(sql, t) == '\"' then " " else ""
  {
    hide Doubled;
    assert Quoted(mode.zNew) + "" == Quoted(mode.zNew);
  }

  lemma SameString(sql: string, t: Token)
    requires InSql(sql, t)
    ensures Replacement(sql, Requote, t)
            == ['\''] + Doubled(Dequoted(sql[t.off..t.off + t.n]), '\'') + ['\'']
               + if After(sql, t) == '\'' then " " else ""
  {
    hide Doubled, Dequoted;
  }

  /** A replacement between quotes, followed by what follows its token in the statement, is read as the new name, or
      when requoting as the string that stood there. */
  lemma ReadsBack(sql: string, mode: Mode, t: Token, rest: string)
    requires InSql(sql, t) && (mode.Rename? ==> mode.bQuote || !IsIdChar(sql[t.off]))
    requires rest == "" || rest[0] == After(sql, t)
    ensures Dequoted(Replacement(sql, mode, t) + rest) ==
            if mode.Rename? then mode.zNew else Dequoted(sql[t.off..t.off + t.n])
  {
    hide Undouble, Doubled, Dequoted, IsIdChar, Replacement, Quoted;
    if mode.Rename? {
      var space := if After(sql, t) == '\"' then " " else "";
      NewName(sql, mode, t);
      DequotedDoubled(mode.zNew, '\"', space + rest);
      Rejoined(Doubled(mode.zNew, '\"'), '\"', space, rest);
    } else {
      var z, space := Dequoted(sql[t.off..t.off + t.n]), if After(sql, t) == '\'' then " " else "";
      SameString(sql, t);
      DequotedDoubled(z, '\'', space + rest);
      Rejoined(Doubled(z, '\''), '\'', space, rest);
    }
  }

  predicate Before(a: Token, b: Token) { a.off + a.n <= b.off }

  // Tokens lie in the statement and do not overlap; when requoting they are double-quoted strings.
  ghost predicate Tokens(sql: string, mode: Mode, list: seq<Token>) {
    && (forall i | 0 <= i < |list| :: InSql(sql, list[i]))
    && (forall i, j | 0 <= i < j < |list| :: Before(list[i], list[j]) || Before(list[j], list[i]))
    && (mode.Requote? ==> forall i | 0 <= i < |list| ::
          list[i].n >= 2 && sql[list[i].off] == sql[list[i].off + list[i].n - 1] == '\"')
  }

  ghost predicate StartsAt(list: seq<Token>, i: nat, t: Token) { t in list && t.off == i }

  /** The statement from position i on with every token replaced at once, reading left to right. */
  ghost function Substituted(sql: string, mode: Mode, list: seq<Token>, i: nat): string
    requires forall k | 0 <= k < |list| :: InSql(sql, list[k])
    decreases |sql| - i
  {
    if i >= |sql| then ""
    else if exists t :: StartsAt(list, i, t) then
      var t :| StartsAt(list, i, t);
      Replacement(sql, mode, t) + Substituted(sql, mode, list, i + t.n)
    else [sql[i]] + Substituted(sql, mode, list, i + 1)
  }

  // Tokens that do not overlap start at different places.
  lemma OneStarts(sql: string, mode: Mode, list: seq<Token>, a: Token, b: Token)
    requires Tokens(sql, mode, list) && a in list && b in list && a.off == b.off
    ensures a == b
  {
    var i :| 0 <= i < |list| && list[i] == a;
    var j :| 0 <= j < |list| && list[j] == b;
    assert i < j ==> Before(a, b) || Before(b, a);
    assert j < i ==> Before(a, b) || Before(b, a);
  }

  lemma AtToken(sql: string, mode: Mode, list: seq<Token>, t: Token)
    requires Tokens(sql, mode, list) && t in list
    ensures InSql(sql, t)
    ensures Substituted(sql, mode, list, t.off) == Replacement(sql, mode, t) + Substituted(sql, mode, list, t.off + t.n)
  {
    hide Replacement;
    var i :| 0 <= i < |list| && list[i] == t;
    assert StartsAt(list, t.off, t);
    forall u | StartsAt(list, t.off, u) ensures u == t { OneStarts(sql, mode, list, t, u); }
  }

  lemma NoToken(sql: string, mode: Mode, list: seq<Token>, i: nat)
    requires (forall k | 0 <= k < |list| :: InSql(sql, list[k])) && i < |sql| && forall t | t in list :: t.off != i
    ensures Substituted(sql, mode, list, i) == [sql[i]] + Substituted(sql, mode, list, i + 1)
  {
    hide Replacement;
    assert !exists t :: StartsAt(list, i, t);
  }

  // Where no token starts, the statement is copied.
  lemma {:induction false} PlainText(sql: string, mode: Mode, list: seq<Token>, i: nat, m: nat)
    requires (forall k | 0 <= k < |list| :: InSql(sql, list[k])) && i <= m <= |sql|
    requires forall t | t in list :: t.off < i || m <= t.off
    ensures Substituted(sql, mode, list, i) == sql[i..m] + Substituted(sql, mode, list, m)
    decreases m - i
  {
    hide Substituted;
    if i < m {
      PlainText(sql, mode, list, i + 1, m);
      assert sql[i..m] == [sql[i]] + sql[i + 1..m];
      NoToken(sql, mode, list, i);
    } else {
      assert sql[i..m] == "";
    }
  }

  /** renameColumnTokenNext: take the rightmost token off the list. */
  method TokenNext(list: seq<Token>) returns (best: Token, ghost at: nat, rest: seq<Token>)
    requires list != []
    ensures at < |list| && best == list[at] && rest == list[..at] + list[at + 1..]
    ensures forall k | 0 <= k < |list| :: list[k].off <= best.off
  {
    best := list[0];
    var i := 1;
    while i < |list|
      invariant 1 <= i <= |list| && best in list[..i] && forall k | 0 <= k < i :: list[k].off <= best.off
    {
      assert list[..i + 1] == list[..i] + [list[i]];
      if list[i].off > best.off { best := list[i]; }
      i := i + 1;
    }
    var j := 0;
    while list[j] != best
      invariant 0 <= j < |list| && best in list[j..]
      decreases |list| - j
    {
      j := j + 1;
    }
    at, rest := j, list[..j] + list[j + 1..];
  }

  // A replacement is longer than its token by less than this.
  lemma Growth(sql: string, mode: Mode, t: Token)
    requires InSql(sql, t) && (mode.Requote? ==> t.n >= 2 && sql[t.off] == sql[t.off + t.n - 1] == '\"')
    ensures mode.Rename? ==> |Replacement(sql, mode, t)| <= t.n + |Quoted(mode.zNew)|
    ensures mode.Requote? ==> |Replacement(sql, mode, t)| <= 2 * t.n - 1
  {
    if mode.Requote? {
      Requoted(sql[t.off..t.off + t.n]);
    } else {
      QuotedSize(mode.zNew);
      hide Quoted;
    }
  }

  lemma QuotedSize(zNew: string)
    ensures |Quoted(zNew)| >= |zNew| + 2 && (NoNul(zNew) ==> NoNul(Quoted(zNew)))
  {
  }

  lemma Requoted(s: string)
    requires |s| >= 2 && s[0] == s[|s| - 1] == '\"'
    ensures |Doubled(Dequoted(s), '\'')| <= 2 * |s| - 4
  {
    assert s[1..][|s| - 2] == '\"';
  }

  lemma NoNulJoin(a: string, b: string)
    ensures NoNul(a) && NoNul(b) ==> NoNul(a + b)
  {
  }

  lemma ReplacementText(sql: string, mode: Mode, t: Token)
    requires InSql(sql, t) && NoNul(sql) && (mode.Rename? ==> NoNul(mode.zNew))
    ensures NoNul(Replacement(sql, mode, t))
  {
    if mode.Requote? {
      var d := Doubled(Dequoted(sql[t.off..t.off + t.n]), '\'');
      hide Doubled, Dequoted, NoNul;
      assert NoNul(d) by { DequotedText(sql[t.off..t.off + t.n], sql, t); }
      Marks();
      NoNulJoin("\'", d);
      NoNulJoin("\'" + d, "\'");
      NoNulJoin("\'" + d + "\'", if After(sql, t) == '\'' then " " else "");
    } else {
      QuotedSize(mode.zNew);
      NoNulJoin(Quoted(mode.zNew), " ");
    }
  }

  lemma Marks()
    ensures NoNul("\'") && NoNul(" ") && NoNul("")
  {
  }

  lemma DequotedText(s: string, sql: string, t: Token)
    requires InSql(sql, t) && NoNul(sql) && s == sql[t.off..t.off + t.n]
    ensures NoNul(Doubled(Dequoted(s), '\''))
  {
  }

  // Tokens still to be replaced all end at or before m, and what is in the buffer is the statement up to m
  // followed by the rest with its tokens replaced.
  ghost predicate Editing(sql: string, mode: Mode, all: seq<Token>, left: seq<Token>, m: nat, out: string) {
    && Tokens(sql, mode, all) && m <= |sql| && out == sql[..m] + Substituted(sql, mode, all, m)
    && (forall t | t in left :: t in all && t.off + t.n <= m)
    && (forall i, j | 0 <= i < j < |left| :: Before(left[i], left[j]) || Before(left[j], left[i]))
    && (forall t | t in all && t.off < m :: t in left)
  }

  // out with n characters at off replaced by r.
  function Spliced(out: string, off: nat, n: nat, r: string): string
    requires off + n <= |out|
  {
    out[..off] + r + out[off + n..]
  }

  lemma AllInSql(sql: string, mode: Mode, all: seq<Token>)
    requires Tokens(sql, mode, all)
    ensures forall k | 0 <= k < |all| :: InSql(sql, all[k])
  {
  }

  lemma EditStart(sql: string, mode: Mode, all: seq<Token>)
    requires Tokens(sql, mode, all)
    ensures Editing(sql, mode, all, all, |sql|, sql)
  {
    forall t | t in all ensures t.off + t.n <= |sql| && t.off < |sql| {
      var i :| 0 <= i < |all| && all[i] == t;
      assert InSql(sql, all[i]);
    }
  }

  /** Replacing the rightmost token left moves the boundary to its start. */
  lemma EditStep(sql: string, mode: Mode, all: seq<Token>, left: seq<Token>, m: nat, out: string, at: nat)
    requires Editing(sql, mode, all, left, m, out) && at < |left| && forall k | 0 <= k < |left| ::
               left[k].off <= left[at].off
    ensures InSql(sql, left[at]) && left[at].off + left[at].n <= m <= |out|
    ensures Editing(sql, mode, all, left[..at] + left[at + 1..], left[at].off,
                    Spliced(out, left[at].off, left[at].n, Replacement(sql, mode, left[at])))
  {
    hide Replacement, Substituted, Tokens;
    var t := left[at];
    assert t in left;
    AtToken(sql, mode, all, t);
    AllInSql(sql, mode, all);
    EditOrder(sql, mode, all, left, m, out, at);
    PlainText(sql, mode, all, t.off + t.n, m);
    var r, tail := Replacement(sql, mode, t), Substituted(sql, mode, all, m);
    assert out[t.off + t.n..] == sql[t.off + t.n..m] + tail;
    assert out[..t.off] == sql[..t.off];
    assert Spliced(out, t.off, t.n, r) == sql[..t.off] + (r + (sql[t.off + t.n..m] + tail));
  }

  // What is left without one element.
  lemma RestHolds(left: seq<Token>, at: nat)
    requires at < |left|
    ensures var rest := left[..at] + left[at + 1..];
            && (forall k | 0 <= k < |rest| :: rest[k] == if k < at then left[k] else left[k + 1])
            && (forall u | u in left && u != left[at] :: u in rest)
  {
    var rest := left[..at] + left[at + 1..];
    forall u | u in left && u != left[at] ensures u in rest {
      var k :| 0 <= k < |left| && left[k] == u;
      assert k < at ==> rest[k] == u;
      assert k > at ==> rest[k - 1] == u;
    }
  }

  // Every other token left ends before the rightmost one starts.
  lemma EditOrder(sql: string, mode: Mode, all: seq<Token>, left: seq<Token>, m: nat, out: string, at: nat)
    requires Editing(sql, mode, all, left, m, out) && at < |left| && forall k | 0 <= k < |left| ::
               left[k].off <= left[at].off
    ensures var t, rest := left[at], left[..at] + left[at + 1..];
            (forall u | u in rest :: u in all && u.off + u.n <= t.off)
            && (forall u | u in all && u.off < t.off :: u in rest)
                 && (forall u | u in all :: u.off < t.off + t.n || m <= u.off)
            && (forall i, j | 0 <= i < j < |rest| :: Before(rest[i], rest[j]) || Before(rest[j], rest[i]))
  {
    hide Substituted, Replacement;
    var t, rest := left[at], left[..at] + left[at + 1..];
    forall k | 0 <= k < |left| && k != at ensures left[k].off + left[k].n <= t.off {
      assert left[k] in left && t in left;
      assert InAll(sql, mode, all, left[k]) && InAll(sql, mode, all, t);
    }
    RestHolds(left, at);
  }

  ghost predicate InAll(sql: string, mode: Mode, all: seq<Token>, t: Token)
    requires Tokens(sql, mode, all)
    ensures InAll(sql, mode, all, t) ==> InSql(sql, t)
  {
    t in all
  }

  lemma EditEnd(sql: string, mode: Mode, all: seq<Token>, m: nat, out: string)
    requires Editing(sql, mode, all, [], m, out)
    ensures out == Substituted(sql, mode, all, 0)
  {
    PlainText(sql, mode, all, 0, m);
    assert sql[0..m] == sql[..m];
  }

  // Replace n characters at off in the NUL-terminated string of nOut characters.
  method Splice(zOut: array<char>, nOut: nat, off: nat, n: nat, zReplace: string) returns (nOut': nat)
    requires off + n <= nOut < zOut.Length && zOut[nOut] == NUL && nOut - n + |zReplace| < zOut.Length
    modifies zOut
    ensures nOut' == nOut - n + |zReplace| && zOut[nOut'] == NUL
    ensures zOut[..nOut'] == Spliced(old(zOut[..nOut]), off, n, zReplace)
  {
    hide Spliced;
    var nReplace := |zReplace|;
    nOut' := nOut;
    if n != nReplace {
      nOut' := nOut - n + nReplace;
      forall q | off + nReplace <= q < nOut' { zOut[q] := zOut[q - nReplace + n]; }
      zOut[nOut'] := NUL;
    }
    forall q | off <= q < off + nReplace { zOut[q] := zReplace[q - off]; }
    SplicedAt(old(zOut[..nOut]), off, n, zReplace, zOut[..nOut']);
  }

  lemma SplicedAt(out: string, off: nat, n: nat, r: string, res: string)
    requires off + n <= |out| && |res| == |out| - n + |r|
    requires (forall q | 0 <= q < off :: res[q] == out[q]) && (forall q | off <= q < off + |r| :: res[q] == r[q - off])
    requires forall q | off + |r| <= q < |res| :: res[q] == out[q - |r| + n]
    ensures res == Spliced(out, off, n, r)
  {
  }

  // The C string in a buffer: everything up to the first NUL.
  method CString(z: array<char>, ghost n: nat) returns (r: string)
    requires n < z.Length && z[n] == NUL && NoNul(z[..n])
    ensures r == z[..n]
  {
    var i := 0;
    while z[i] != NUL
      invariant 0 <= i <= n && (i < n ==> z[..n][i] != NUL)
      decreases n - i
    {
      i := i + 1;
    }
    r := z[..i];
  }

  lemma SplicedNul(out: string, off: nat, n: nat, r: string)
    requires off + n <= |out| && NoNul(out) && NoNul(r)
    ensures NoNul(Spliced(out, off, n, r))
  {
  }

  // sqlite3_snprintf into a buffer of n characters: what does not fit before the NUL is cut off.
  function Printed(n: nat, s: string): string
    requires n > 0
  {
    if |s| < n then s else s[..n - 1]
  }

  /** The text for one token. What is printed into the scratch buffer of twice the size of the statement always fits. */
  method ReplacementFor(sql: string, mode: Mode, t: Token, zQuot: string) returns (z: string)
    requires InSql(sql, t) && (mode.Rename? ==> zQuot == Quoted(mode.zNew) + " ")
    requires mode.Requote? ==> t.n >= 2 && sql[t.off] == sql[t.off + t.n - 1] == '\"'
    ensures z == Replacement(sql, mode, t)
    ensures mode.Rename? && !mode.bQuote && IsIdChar(sql[t.off]) ==> z == mode.zNew
    ensures mode.Rename? && (mode.bQuote || !IsIdChar(sql[t.off])) ==>
              z == "\"" + Doubled(mode.zNew, '\"') + "\"" + if After(sql, t) == '\"' then " " else ""
    ensures mode.Requote? ==>
              z == "\'" + Doubled(Dequoted(sql[t.off..t.off + t.n]), '\'') + "\'"
                   + if After(sql, t) == '\'' then " " else ""
  {
    hide Quoted, Doubled, Dequoted, IsIdChar, Printed, Replacement;
    ReplacementIs(sql, mode, t);
    match mode {
      case Rename(zNew, bQuote) =>
        if !bQuote && IsIdChar(sql[t.off]) {
          z := zNew;
        } else {
          var nReplace := |zQuot| - 1;
          if After(sql, t) == '\"' { nReplace := nReplace + 1; }
          assert zQuot[..|zQuot| - 1] == Quoted(zNew) && zQuot[..|zQuot|] == zQuot;
          z := zQuot[..nReplace];
        }
      case Requote =>
        var zBuf1 := Dequoted(sql[t.off..t.off + t.n]);
        var s := "\'" + Doubled(zBuf1, '\'') + "\'" + if After(sql, t) == '\'' then " " else "";
        Growth(sql, mode, t);
        PrintedAll(2 * |sql|, s);
        z := Printed(2 * |sql|, s);
    }
  }

  lemma PrintedAll(n: nat, s: string)
    requires |s| < n
    ensures Printed(n, s) == s
  {
  }

  // Room left: each replacement adds at most nQuot characters, or less than its token's own length.
  predicate Room(mode: Mode, nSql: nat, nList: nat, nLeft: nat, nQuot: nat, m: nat, nOut: nat) {
    nLeft <= nList && m <= nSql && if mode.Rename? then nOut + nLeft * nQuot <= nSql + nList * nQuot
        else nOut <= nSql + (nSql - m)
  }

  lemma RoomStep(mode: Mode, nSql: nat, nList: nat, nLeft: nat, nQuot: nat, m: nat, nOut: nat, t: Token, r: nat)
    requires Room(mode, nSql, nList, nLeft, nQuot, m, nOut) && 0 < nLeft && t.off + t.n <= m && t.n <= nOut
    requires if mode.Rename? then r <= t.n + nQuot else r <= 2 * t.n - 1
    ensures Room(mode, nSql, nList, nLeft - 1, nQuot, t.off, nOut - t.n + r)
  {
    assert nLeft * nQuot == (nLeft - 1) * nQuot + nQuot;
  }

  // A buffer with room for every replacement, holding the statement, and the quoted new name.
  method Prepare(sql: string, mode: Mode, nList: nat) returns (zOut: array<char>, zQuot: string, nQuot: nat)
    ensures fresh(zOut) && zOut.Length == (if mode.Rename? then |sql| + nList * nQuot + 1 else 2 * |sql| + 1) > |sql|
    ensures zOut[..|sql|] == sql && zOut[|sql|] == NUL
    ensures mode.Rename? ==> zQuot == Quoted(mode.zNew) + " " && nQuot == |Quoted(mode.zNew)|
  {
    var nSql, size := |sql|, 2 * |sql| + 1;
    zQuot, nQuot := "", 0;
    if mode.Rename? {
      zQuot := Quoted(mode.zNew) + " ";
      nQuot := |zQuot| - 1;
      assert nList * nQuot >= 0;
      size := nSql + nList * nQuot + 1;
    }
    zOut := new char[size](_ => NUL);
    forall p | 0 <= p < nSql { zOut[p] := sql[p]; }
  }

  /** renameEditSql: the statement with all its tokens replaced at once. Every write is inside the buffer. */
  method EditSql(sql: string, mode: Mode, list: seq<Token>) returns (r: string)
    requires |sql| > 0 && NoNul(sql) && (mode.Rename? ==> NoNul(mode.zNew)) && Tokens(sql, mode, list)
    ensures r == Substituted(sql, mode, list, 0)
  {
    hide Substituted, Replacement, Spliced, Editing, Room, Quoted, Tokens, NoNul, InSql, Doubled, Dequoted, IsIdChar,
         After;
    var nSql := |sql|;
    var zOut, zQuot, nQuot := Prepare(sql, mode, |list|);
    var size := zOut.Length;
    EditStart(sql, mode, list);
    RoomStart(mode, nSql, |list|, nQuot);
    var nOut: nat, left := nSql, list;
    ghost var m: nat := nSql;
    while left != []
      invariant nOut < zOut.Length == size && zOut[nOut] == NUL && NoNul(zOut[..nOut])
      invariant Editing(sql, mode, list, left, m, zOut[..nOut]) && Room(mode, nSql, |list|, |left|, nQuot, m, nOut)
      decreases |left|
    {
      ghost var out, was := zOut[..nOut], left;
      var best, rest;
      ghost var at;
      best, at, rest := TokenNext(left);
      EditStep(sql, mode, list, left, m, out, at);
      EditQuoted(sql, mode, list, left, m, out, at);
      Growth(sql, mode, best);
      ReplacementText(sql, mode, best);
      var zReplace := ReplacementFor(sql, mode, best, zQuot);
      RoomStep(mode, nSql, |list|, |left|, nQuot, m, nOut, best, |zReplace|);
      RoomFits(mode, nSql, |list|, |rest|, nQuot, best.off, nOut - best.n + |zReplace|, size);
      SplicedNul(out, best.off, best.n, zReplace);
      nOut := Splice(zOut, nOut, best.off, best.n, zReplace);
      left, m := rest, best.off;
    }
    EditEnd(sql, mode, list, m, zOut[..nOut]);
    r := CString(zOut, nOut);
  }

  lemma RoomStart(mode: Mode, nSql: nat, nList: nat, nQuot: nat)
    ensures Room(mode, nSql, nList, nList, nQuot, nSql, nSql)
  {
  }

  lemma RoomFits(mode: Mode, nSql: nat, nList: nat, nLeft: nat, nQuot: nat, m: nat, nOut: nat, size: nat)
    requires Room(mode, nSql, nList, nLeft, nQuot, m, nOut)
             && size == if mode.Rename? then nSql + nList * nQuot + 1 else 2 * nSql + 1
    ensures nOut < size
  {
    assert nLeft * nQuot >= 0;
  }

  lemma EditQuoted(sql: string, mode: Mode, all: seq<Token>, left: seq<Token>, m: nat, out: string, at: nat)
    requires Editing(sql, mode, all, left, m, out) && at < |left|
    ensures InSql(sql, left[at]) && (mode.Requote? ==>
              left[at].n >= 2 && sql[left[at].off] == sql[left[at].off + left[at].n - 1] == '\"')
  {
    hide Substituted;
    assert left[at] in left;
    var i :| 0 <= i < |all| && all[i] == left[at];
  }
}
