/** The text handling of the OBJ loader (src/obj.c): `count_words`,
    `offset_until_sep` and `ft_split`, which cut the file into lines, and the
    behaviour of the C library's `strtok` and `atoi` that the loader relies
    on. A C string is its characters up to the terminating NUL, so a `string`
    here holds no `'\0'`. */
module ObjText {
  import opened Wrappers

  // `count_words`.

  /** What `count_words` returns, in closed form: one word per separator,
      plus one when the text starts with something else. */
  function WordCount(s: string, c: char): nat
  {
    multiset(s)[c] + (if |s| > 0 && s[0] != c then 1 else 0)
  }

  /** `count_words(s, c)`. */
  method CountWords(s: string, c: char) returns (count: nat)
    ensures count == WordCount(s, c)
  {
    count := 0;
    var i := 0;
    while i < |s|
      invariant 0 <= i <= |s|
      invariant i == 0 || i == |s| || s[i] == c
      invariant count == multiset(s[..i])[c] + (if i > 0 && s[0] != c then 1 else 0)
    {
      var start := i;
      count := count + 1;
      if s[i] == c {
        CountStep(s, c, i);
        i := i + 1;
      }
      while i < |s| && s[i] != c
        invariant start <= i <= |s|
        invariant i > start || s[start] != c
        invariant count == multiset(s[..i])[c] + (if s[0] != c then 1 else 0)
      {
        CountStep(s, c, i);
        i := i + 1;
      }
    }
    assert s[..i] == s;
  }

  /** Counting one more character of `s`. */
  lemma CountStep(s: string, c: char, i: nat)
    requires i < |s|
    ensures multiset(s[..i + 1])[c] == multiset(s[..i])[c] + (if s[i] == c then 1 else 0)
  {
    assert s[..i + 1] == s[..i] + [s[i]];
  }

  // `offset_until_sep`.

  /** `offset_until_sep(s, index, c)`: the first `c` at or after `index`, or
      the end of the text. */
  method OffsetUntilSep(s: string, index: nat, c: char) returns (k: nat)
    requires index <= |s|
    ensures index <= k <= |s|
    ensures Clear(s, index, k, c)
    ensures k == |s| || s[k] == c
  {
    k := index;
    while k < |s|
      invariant index <= k <= |s|
      invariant Clear(s, index, k, c)
    {
      if s[k] == c {
        break;
      }
      k := k + 1;
    }
  }

  /** No `c` in `s[i..k]`. */
  predicate Clear(s: string, i: nat, k: nat, c: char)
    requires i <= k <= |s|
  {
    forall j | i <= j < k :: s[j] != c
  }

  /** The index of the first `c` in `s`, or `|s|`. */
  function Find(s: string, c: char): (k: nat)
    ensures k <= |s| && Clear(s, 0, k, c) && (k == |s| || s[k] == c)
  {
    if |s| == 0 || s[0] == c then 0 else 1 + Find(s[1..], c)
  }

  /** Only the first `c` has no `c` before it. */
  lemma FindUnique(s: string, c: char, k: nat)
    requires k <= |s| && Clear(s, 0, k, c) && (k == |s| || s[k] == c)
    ensures Find(s, c) == k
  {
  }

  // `ft_split`.

  /** The pieces `ft_split` produces, in order: the text up to the first
      separator, then the pieces of the rest. A separator that ends the text
      opens no further piece. */
  function Pieces(s: string, c: char): seq<string>
    decreases |s|
  {
    if |s| == 0 then []
    else
      var k := Find(s, c);
      [s[..k]] + (if k == |s| then [] else Pieces(s[k + 1..], c))
  }

  /** No piece contains the separator. */
  lemma {:induction false} PiecesHaveNoSeparator(s: string, c: char)
    ensures forall m | 0 <= m < |Pieces(s, c)| :: c !in Pieces(s, c)[m]
    decreases |s|
  {
    if |s| > 0 {
      var k := Find(s, c);
      if k < |s| {
        PiecesHaveNoSeparator(s[k + 1..], c);
      }
    }
  }

  /** The pieces joined with `c` between them. */
  function Join(ps: seq<string>, c: char): string
  {
    if |ps| == 0 then []
    else if |ps| == 1 then ps[0]
    else ps[0] + [c] + Join(ps[1..], c)
  }

  /** `s` without one trailing `c`. */
  function DropTrailing(s: string, c: char): string
  {
    if |s| > 0 && s[|s| - 1] == c then s[..|s| - 1] else s
  }

  /** Joining the pieces gives the text back, except for a separator that
      ends it. */
  lemma {:induction false} JoinPieces(s: string, c: char)
    ensures Join(Pieces(s, c), c) == DropTrailing(s, c)
    decreases |s|
  {
    if |s| > 0 {
      var k := Find(s, c);
      if k < |s| {
        var head, rest := s[..k], s[k + 1..];
        assert s == head + [c] + rest;
        if |rest| == 0 {
          assert Pieces(s, c) == [head];
        } else {
          JoinPieces(rest, c);
          var ps := Pieces(rest, c);
          assert Pieces(s, c) == [head] + ps;
          JoinCons(head, ps, c);
          DropTrailingCons(head, rest, c);
        }
      }
    }
  }

  lemma JoinCons(p: string, ps: seq<string>, c: char)
    requires |ps| > 0
    ensures Join([p] + ps, c) == p + [c] + Join(ps, c)
  {
    assert ([p] + ps)[1..] == ps;
  }

  lemma DropTrailingCons(head: string, rest: string, c: char)
    requires |rest| > 0
    ensures DropTrailing(head + [c] + rest, c) == head + [c] + DropTrailing(rest, c)
  {
    var s := head + [c] + rest;
    assert s[|s| - 1] == rest[|rest| - 1];
    if rest[|rest| - 1] == c {
      assert s[..|s| - 1] == head + [c] + rest[..|rest| - 1];
    }
  }

  /** One piece per separator, plus one when the text ends with something
      else. */
  lemma {:induction false} PieceCount(s: string, c: char)
    ensures |Pieces(s, c)| == multiset(s)[c] + (if |s| > 0 && s[|s| - 1] != c then 1 else 0)
    decreases |s|
  {
    if |s| > 0 {
      var k := Find(s, c);
      var head := s[..k];
      NoneCounted(head, c);
      if k < |s| {
        var rest := s[k + 1..];
        assert s == head + [c] + rest;
        PieceCount(rest, c);
        assert |Pieces(s, c)| == 1 + |Pieces(rest, c)|;
        if |rest| > 0 {
          assert rest[|rest| - 1] == s[|s| - 1];
        }
      } else {
        assert head == s;
      }
    }
  }

  /** A string free of `c` has no occurrence of it. */
  lemma NoneCounted(s: string, c: char)
    requires Clear(s, 0, |s|, c)
    ensures multiset(s)[c] == 0
  {
    assert c !in s;
  }

  /** The rest of `s` from `i` on, empty once `i` is past the end. */
  function Tail(s: string, i: nat): string
  {
    if i <= |s| then s[i..] else []
  }

  /** One iteration of `ft_split`'s loop: the piece from `i` to the next
      separator `k`, then the pieces after it. */
  lemma PiecesStep(s: string, c: char, i: nat, k: nat)
    requires i < |s| && i <= k <= |s|
    requires Clear(s, i, k, c) && (k == |s| || s[k] == c)
    ensures Pieces(s[i..], c) == [s[i..k]] + Pieces(Tail(s, k + 1), c)
  {
    var t, f := s[i..], k - i;
    assert Clear(t, 0, f, c) by {
      forall j | 0 <= j < f
        ensures t[j] != c
      {
        assert t[j] == s[i + j];
      }
    }
    FindUnique(t, c, f);
    assert t[..f] == s[i..k];
    if k < |s| {
      assert t[f + 1..] == s[k + 1..] == Tail(s, k + 1);
    } else {
      assert Tail(s, k + 1) == [];
    }
  }

  /** What `FillPieces` knows after one more piece: it fits, and the pieces
      still to come are those after `k`. */
  lemma FillStep(s: string, c: char, i: nat, k: nat, done: seq<string>, done': seq<string>)
    requires i < |s| && i <= k <= |s|
    requires Clear(s, i, k, c) && (k == |s| || s[k] == c)
    requires Pieces(s, c) == done + Pieces(Tail(s, i), c)
    requires done' == done + [s[i..k]]
    ensures |done| < |Pieces(s, c)|
    ensures Pieces(s, c) == done' + Pieces(Tail(s, k + 1), c)
  {
    PiecesStep(s, c, i, k);
    assert Tail(s, i) == s[i..];
    var later := Pieces(Tail(s, k + 1), c);
    assert Pieces(Tail(s, i), c) == [s[i..k]] + later;
    AppendAssociative(done, [s[i..k]], later);
  }

  lemma AppendAssociative<T>(a: seq<T>, b: seq<T>, c: seq<T>)
    ensures a + (b + c) == (a + b) + c
  {
  }

  /** The loop of `ft_split` over a slot array of sufficient capacity: the
      pieces land in slots `0 .. len - 1`, in order, and no other slot
      changes. The source's test `k >= i` always holds (`OffsetUntilSep`
      never moves backwards), so every iteration stores a piece. */
  method FillPieces(s: string, c: char, res: array<Option<string>>) returns (len: nat)
    requires |Pieces(s, c)| <= res.Length
    modifies res
    ensures len == |Pieces(s, c)| && Holds(res[..], Pieces(s, c), old(res[..]))
  {
    ghost var initial := res[..];
    len := 0;
    var i := 0;
    ghost var done: seq<string> := [];
    assert Tail(s, 0) == s;
    while i < |s|
      invariant i <= |s| + 1 && len == |done|
      invariant Pieces(s, c) == done + Pieces(Tail(s, i), c)
      invariant Holds(res[..], done, initial)
      decreases |s| + 1 - i
    {
      i, done := StorePiece(s, c, res, i, len, done, initial);
      len := len + 1;
    }
    NoPiecesPastEnd(s, c, i);
    assert done + [] == done;
  }

  /** One iteration of `ft_split`'s loop: the piece from `i` to the next
      separator goes into the first free slot, and the scan resumes after
      that separator. */
  method StorePiece(s: string, c: char, res: array<Option<string>>, i: nat, len: nat,
                    ghost done: seq<string>, ghost initial: seq<Option<string>>)
    returns (next: nat, ghost done': seq<string>)
    requires i < |s| && len == |done| && |Pieces(s, c)| <= res.Length
    requires Pieces(s, c) == done + Pieces(Tail(s, i), c)
    requires Holds(res[..], done, initial)
    modifies res
    ensures i < next <= |s| + 1 && |done'| == |done| + 1
    ensures Pieces(s, c) == done' + Pieces(Tail(s, next), c)
    ensures Holds(res[..], done', initial)
  {
    var k := OffsetUntilSep(s, i, c);
    var piece := s[i..k];
    done' := done + [piece];
    FillStep(s, c, i, k, done, done');
    HoldsStore(res[..], done, initial, piece);
    res[len] := Some(piece);
    next := k + 1;
  }

  lemma NoPiecesPastEnd(s: string, c: char, i: nat)
    requires i >= |s|
    ensures Pieces(Tail(s, i), c) == []
  {
    assert Tail(s, i) == [];
  }

  /** The slots `res` hold `done` first and their `initial` contents past
      them. */
  ghost predicate Holds(res: seq<Option<string>>, done: seq<string>, initial: seq<Option<string>>)
  {
    |done| <= |res| == |initial|
    && (forall m | 0 <= m < |done| :: res[m] == Some(done[m]))
    && (forall m | |done| <= m < |res| :: res[m] == initial[m])
  }

  /** Storing the next piece in the first free slot. */
  lemma HoldsStore(res: seq<Option<string>>, done: seq<string>, initial: seq<Option<string>>, piece: string)
    requires Holds(res, done, initial) && |done| < |res|
    ensures Holds(res[|done| := Some(piece)], done + [piece], initial)
  {
  }

  /** `count_words` never undercounts the pieces by more than the slot
      `ft_split` reserves for the terminator. */
  lemma PiecesFit(s: string, c: char)
    ensures |Pieces(s, c)| <= WordCount(s, c) + 1
  {
    PieceCount(s, c);
  }

  /** `ft_split(s, c)` as written: `count_words(s, c) + 1` slots, all NULL,
      then the pieces from slot 0. */
  method SplitAsWritten(s: string, c: char) returns (res: array<Option<string>>)
    ensures fresh(res)
    ensures res.Length == WordCount(s, c) + 1 && |Pieces(s, c)| <= res.Length
    ensures forall m | 0 <= m < |Pieces(s, c)| :: res[m] == Some(Pieces(s, c)[m])
    ensures forall m | |Pieces(s, c)| <= m < res.Length :: res[m] == None
  {
    var words := CountWords(s, c);
    res := new Option<string>[words + 1](_ => None);
    PiecesFit(s, c);
    var len := FillPieces(s, c, res);
  }

  /** The array `ft_split` returns keeps a NULL slot after the last piece
      exactly when the text does not start with the separator while ending
      with something else. */
  lemma SplitTerminated(s: string, c: char)
    ensures |Pieces(s, c)| < WordCount(s, c) + 1 <==> !(|s| > 0 && s[0] == c && s[|s| - 1] != c)
  {
    PieceCount(s, c);
  }

  /** The text `"\na"` splits into two pieces, `""` and `"a"`, but
      `count_words` counts one word, so both slots are filled and no NULL
      slot ends the array. */
  lemma SplitLosesTerminator()
    ensures Pieces("\na", '\n') == ["", "a"]
    ensures WordCount("\na", '\n') + 1 == |Pieces("\na", '\n')|
  {
    var s := "\na";
    assert Find(s, '\n') == 0;
    assert s[1..] == "a";
    assert Find("a", '\n') == 1 by {
      assert Find("a"[1..], '\n') == 0;
    }
    assert "a"[..1] == "a";
    assert Pieces("a", '\n') == ["a"];
    assert Pieces(s, '\n') == [s[..0]] + Pieces(s[1..], '\n');
    assert multiset(s)[('\n')] == 1;
  }

  /** The number of pieces `ft_split` produces. */
  method CountPieces(s: string, c: char) returns (n: nat)
    ensures n == |Pieces(s, c)|
  {
    n := 0;
    var i := 0;
    while i < |s|
      invariant 0 <= i <= |s|
      invariant n == multiset(s[..i])[c]
    {
      CountStep(s, c, i);
      if s[i] == c {
        n := n + 1;
      }
      i := i + 1;
    }
    assert s[..i] == s;
    if |s| > 0 && s[|s| - 1] != c {
      n := n + 1;
    }
    PieceCount(s, c);
  }

  /** `ft_split` with one slot per piece plus the terminator: the pieces,
      then a NULL slot. */
  method Split(s: string, c: char) returns (res: array<Option<string>>)
    ensures fresh(res)
    ensures res.Length == |Pieces(s, c)| + 1
    ensures forall m | 0 <= m < |Pieces(s, c)| :: res[m] == Some(Pieces(s, c)[m])
    ensures res[|Pieces(s, c)|] == None
  {
    var n := CountPieces(s, c);
    res := new Option<string>[n + 1](_ => None);
    var len := FillPieces(s, c, res);
  }

  // `strtok`.

  /** The tokens that successive `strtok(…, d)` calls return: maximal runs
      without `d`, runs of `d` being skipped, so no token is empty. */
  function Tokens(s: string, d: char): seq<string>
    decreases |s|
  {
    if |s| == 0 then []
    else if s[0] == d then Tokens(s[1..], d)
    else
      var k := Find(s, d);
      [s[..k]] + (if k == |s| then [] else Tokens(s[k + 1..], d))
  }

  /** The non-empty strings of `ps`, in order. */
  function NonEmpty(ps: seq<string>): seq<string>
  {
    if |ps| == 0 then []
    else (if ps[0] == [] then [] else [ps[0]]) + NonEmpty(ps[1..])
  }

  lemma {:induction false} NonEmptyAppend(a: seq<string>, b: seq<string>)
    ensures NonEmpty(a + b) == NonEmpty(a) + NonEmpty(b)
    decreases |a|
  {
    if |a| > 0 {
      assert (a + b)[1..] == a[1..] + b;
      NonEmptyAppend(a[1..], b);
    } else {
      assert a + b == b;
    }
  }

  /** `strtok` returns the pieces of the text at `d` with the empty ones
      left out: it collapses empty fields. */
  lemma {:induction false} TokensAreNonEmptyPieces(s: string, d: char)
    ensures Tokens(s, d) == NonEmpty(Pieces(s, d))
    decreases |s|
  {
    if |s| > 0 {
      var k := Find(s, d);
      var rest := if k == |s| then [] else Pieces(s[k + 1..], d);
      assert Pieces(s, d) == [s[..k]] + rest;
      NonEmptyAppend([s[..k]], rest);
      if s[0] == d {
        TokensAreNonEmptyPieces(s[1..], d);
        assert k == 0 && s[..k] == [];
        assert NonEmpty([s[..k]]) == [];
      } else if k == |s| {
        assert Tokens(s, d) == [s[..k]];
        assert NonEmpty([s[..k]]) == [s[..k]];
      } else {
        TokensAreNonEmptyPieces(s[k + 1..], d);
        assert Tokens(s, d) == [s[..k]] + Tokens(s[k + 1..], d);
        assert NonEmpty([s[..k]]) == [s[..k]];
      }
    }
  }

  // `atoi`.

  /** The characters `isspace` accepts in the C locale. */
  predicate IsSpace(ch: char)
  {
    ch == ' ' || ('\t' <= ch <= '\r')
  }

  predicate IsDigit(ch: char)
  {
    '0' <= ch <= '9'
  }

  /** `s` without its leading white space. */
  function SkipSpace(s: string): string
  {
    if |s| > 0 && IsSpace(s[0]) then SkipSpace(s[1..]) else s
  }

  /** The longest prefix of `s` made of digits. */
  function DigitPrefix(s: string): string
  {
    if |s| > 0 && IsDigit(s[0]) then [s[0]] + DigitPrefix(s[1..]) else []
  }

  /** The value of a string of decimal digits. */
  function DigitsValue(ds: string): nat
  {
    if |ds| == 0 then 0
    else
      var d := ds[|ds| - 1] as int - '0' as int;
      DigitsValue(ds[..|ds| - 1]) * 10 + (if 0 <= d then d else 0)
  }

  /** `atoi(s)`: leading white space, an optional sign, then as many digits
      as follow; 0 when there are none. */
  function Atoi(s: string): int
  {
    var t := SkipSpace(s);
    if |t| > 0 && t[0] == '-' then -(DigitsValue(DigitPrefix(t[1..])) as int)
    else if |t| > 0 && t[0] == '+' then DigitsValue(DigitPrefix(t[1..]))
    else DigitsValue(DigitPrefix(t))
  }

  /** The decimal numeral of `n`, most significant digit first. */
  function Decimal(n: nat): (s: string)
    ensures |s| > 0 && forall m | 0 <= m < |s| :: IsDigit(s[m])
    decreases n
  {
    var last := [('0' as int + n % 10) as char];
    if n < 10 then last else Decimal(n / 10) + last
  }

  lemma {:induction false} DecimalValue(n: nat)
    ensures DigitsValue(Decimal(n)) == n
    decreases n
  {
    var s := Decimal(n);
    if n >= 10 {
      DecimalValue(n / 10);
      assert s[..|s| - 1] == Decimal(n / 10);
    }
  }

  lemma {:induction false} AllDigits(s: string)
    requires forall m | 0 <= m < |s| :: IsDigit(s[m])
    ensures DigitPrefix(s) == s
    decreases |s|
  {
    if |s| > 0 {
      AllDigits(s[1..]);
    }
  }

  /** `atoi` reads back any decimal numeral. */
  lemma AtoiDecimal(n: nat)
    ensures Atoi(Decimal(n)) == n
  {
    var s := Decimal(n);
    DecimalValue(n);
    AllDigits(s);
    assert !IsSpace(s[0]) && s[0] != '-' && s[0] != '+';
    assert SkipSpace(s) == s;
  }

  /** ... and a minus sign before one. */
  lemma AtoiNegativeDecimal(n: nat)
    ensures Atoi(['-'] + Decimal(n)) == -(n as int)
  {
    var s := Decimal(n);
    DecimalValue(n);
    AllDigits(s);
    var t := ['-'] + s;
    assert SkipSpace(t) == t;
    assert t[1..] == s;
  }
}
