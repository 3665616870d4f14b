/** Comparing strings with numbers in them, without regard to case. */
module Natural {

  const TWO_31: int := 0x8000_0000
  const TWO_32: int := 0x1_0000_0000
  const LONG_MAX: nat := 0x7FFF_FFFF_FFFF_FFFF

  predicate IsDigit(c: char)
  {
    '0' <= c <= '9'
  }

  function ToLower(c: char): int
  {
    if 'A' <= c <= 'Z' then c as int + 32 else c as int
  }

  predicate Digit(s: string)
  {
    s != [] && IsDigit(s[0])
  }

  /** The length of the digits that s starts with. */
  function Run(s: string): (n: int)
    ensures 0 <= n <= |s| && (Digit(s) <==> n > 0)
    ensures forall i :: 0 <= i < n ==> IsDigit(s[i])
    ensures n < |s| ==> !IsDigit(s[n])
  {
    if Digit(s) then 1 + Run(s[1..]) else 0
  }

  function Face(c: char): nat
    requires IsDigit(c)
  {
    c as int - '0' as int
  }

  function Decimal(s: string): nat
    requires forall i :: 0 <= i < |s| ==> IsDigit(s[i])
  {
    if s == [] then 0 else 10 * Decimal(s[..|s| - 1]) + Face(s[|s| - 1])
  }

  /** The value of the digits that s starts with. */
  function Value(s: string): (v: int)
    ensures v >= 0
  {
    Decimal(s[..Run(s)])
  }

  /** What strtol makes of a value: the largest long stands for all beyond it. */
  function Clamp(v: int): int
  {
    if v > LONG_MAX then LONG_MAX else v
  }

  function StrToL(s: string): int
  {
    Clamp(Value(s))
  }

  /** A long returned as an int. */
  function ToInt(d: int): int
  {
    var m := d % TWO_32;
    if m < TWO_31 then m else m - TWO_32
  }

  /** What the comparison returns. */
  function Compare(a: string, b: string): int
    decreases |a| + |b|, 1
  {
    if Digit(a) && Digit(b) then
      var (u, v, m, n) := (StrToL(a), StrToL(b), Run(a), Run(b));
      if u != v then ToInt(u - v)
      else if m != n then ToInt(n - m)
      else Compare(a[m..], b[n..])
    else if Digit(a) || Digit(b) then (if Digit(a) then -1 else 1)
    else CompareText(a, b)
  }

  /** The part up to the next digit. */
  function CompareText(a: string, b: string): int
    decreases |a| + |b|, if Digit(a) || Digit(b) then 2 else 0
  {
    if a == [] || b == [] then (if a != [] then 1 else if b != [] then -1 else 0)
    else if Digit(a) || Digit(b) then Compare(a, b)
    else if ToLower(a[0]) != ToLower(b[0]) then ToLower(a[0]) - ToLower(b[0])
    else CompareText(a[1..], b[1..])
  }

  method NaturalStrcasecmp(s1: string, s2: string) returns (r: int)
    ensures r == Compare(s1, s2)
    decreases |s1| + |s2|
  {
    var a, b := s1, s2;
    if Digit(a) && Digit(b) {
      var remA, remB := a[Run(a)..], b[Run(b)..];
      var valA, valB := StrToL(a), StrToL(b);
      if valA != valB {
        return ToInt(valA - valB);
      } else if Run(b) != Run(a) {
        return ToInt(Run(b) - Run(a));
      } else {
        r := NaturalStrcasecmp(remA, remB);
        return;
      }
    }
    if Digit(a) || Digit(b) {
      return if Digit(a) then -1 else 1;
    }
    while a != [] && b != []
      invariant |a| <= |s1| && |b| <= |s2| && ((a == s1 && b == s2) || |a| < |s1|)
      invariant Compare(s1, s2) == CompareText(a, b)
      decreases |a|
    {
      if Digit(a) || Digit(b) {
        r := NaturalStrcasecmp(a, b);
        return;
      }
      if ToLower(a[0]) != ToLower(b[0]) {
        return ToLower(a[0]) - ToLower(b[0]);
      }
      a, b := a[1..], b[1..];
    }
    r := if a != [] then 1 else if b != [] then -1 else 0;
  }

  // ---------- the order it stands for ----------

  /** A number, with its value and its length, or any other character. */
  datatype Part = Part(kind: int, value: int, zeros: int)
  {
    function List(): seq<int> {
      [kind, value, zeros]
    }
  }

  /** The first part of a string; a number comes before any other character. */
  function First(s: string): (p: Part)
    requires s != []
    ensures p.kind == if Digit(s) then 0 else 1
  {
    if Digit(s) then Part(0, Value(s), -Run(s)) else Part(1, ToLower(s[0]), 0)
  }

  function Rest(s: string): (r: string)
    requires s != []
    ensures |r| < |s|
  {
    if Digit(s) then s[Run(s)..] else s[1..]
  }

  /** A string as a sequence of numbers: each part by its kind, its value, and more leading zeros first. */
  function Parts(s: string): seq<int>
    decreases |s|
  {
    if s == [] then [] else First(s).List() + Parts(Rest(s))
  }

  /** The empty string comes after every string that starts with a digit, and before all others. */
  function Ordinal(s: string): seq<int>
  {
    if s == [] then [1, -1] else Parts(s)
  }

  /** The dictionary order on sequences of numbers. */
  function Lex(x: seq<int>, y: seq<int>): int
  {
    if x == [] || y == [] then (if x != [] then 1 else if y != [] then -1 else 0)
    else if x[0] != y[0] then (if x[0] < y[0] then -1 else 1)
    else Lex(x[1..], y[1..])
  }

  function Sign(n: int): int
  {
    if n < 0 then -1 else if n > 0 then 1 else 0
  }

  /** The order of two strings. */
  function Order(a: string, b: string): int
  {
    Lex(Ordinal(a), Ordinal(b))
  }

  /** The difference of two numbers keeps its sign as an int. */
  predicate Tells(d: int)
  {
    if d > 0 then 0 < d % TWO_32 < TWO_31 else d % TWO_32 >= TWO_31
  }

  lemma IntTells(d: int)
    requires d != 0
    ensures Sign(ToInt(d)) == Sign(d) <==> Tells(d)
    ensures -TWO_31 < d < TWO_31 ==> Tells(d)
  {
  }

  // ---------- what the comparison sees of it ----------

  /** The first difference that is left when numbers are longs, cut to an int. */
  function Seen(x: seq<int>, y: seq<int>): int
  {
    if x == [] || y == [] then (if x != [] then 1 else if y != [] then -1 else 0)
    else if Clamp(x[0]) != Clamp(y[0]) then Sign(ToInt(Clamp(x[0]) - Clamp(y[0])))
    else Seen(x[1..], y[1..])
  }

  /**
   The first difference, of two numbers that are different longs, keeps its sign as an int; or, when
   two numbers beyond the longs look alike, what is seen after them happens to lie the same way.
   */
  predicate Told(x: seq<int>, y: seq<int>)
  {
    if x == [] || y == [] then true
    else if x[0] == y[0] then Told(x[1..], y[1..])
    else if Clamp(x[0]) != Clamp(y[0]) then Tells(Clamp(x[0]) - Clamp(y[0]))
    else Seen(x[1..], y[1..]) == Sign(x[0] - y[0])
  }

  /** What is seen is the order exactly when it is told. */
  lemma {:induction false} SeenIsLex(x: seq<int>, y: seq<int>)
    ensures Seen(x, y) == Lex(x, y) <==> Told(x, y)
  {
    hide ToInt, Tells;
    if x != [] && y != [] {
      if x[0] == y[0] {
        SeenIsLex(x[1..], y[1..]);
      } else if Clamp(x[0]) != Clamp(y[0]) {
        IntTells(Clamp(x[0]) - Clamp(y[0]));
      }
    }
  }

  /** Where all numbers are longs, the first difference alone decides. */
  predicate FirstTells(x: seq<int>, y: seq<int>)
  {
    if x == [] || y == [] then true
    else if x[0] == y[0] then FirstTells(x[1..], y[1..])
    else Tells(x[0] - y[0])
  }

  lemma {:induction false} LongsTold(x: seq<int>, y: seq<int>)
    requires (forall i :: 0 <= i < |x| ==> x[i] <= LONG_MAX) && (forall i :: 0 <= i < |y| ==> y[i] <= LONG_MAX)
    ensures Told(x, y) <==> FirstTells(x, y)
  {
    hide Tells;
    if x != [] && y != [] && x[0] == y[0] {
      LongsTold(x[1..], y[1..]);
    }
  }

  lemma SeenOne(p: int, x: seq<int>, u: int, y: seq<int>)
    ensures Seen([p] + x, [u] + y) == if Clamp(p) != Clamp(u) then Sign(ToInt(Clamp(p) - Clamp(u))) else Seen(x, y)
  {
    hide ToInt, Clamp;
    assert ([p] + x)[1..] == x && ([u] + y)[1..] == y;
  }

  lemma Unpacked(p: Part, x: seq<int>)
    ensures p.List() + x == [p.kind] + ([p.value] + ([p.zeros] + x))
  {
  }

  lemma SeenPart(p: Part, x: seq<int>, u: Part, y: seq<int>)
    ensures Seen(p.List() + x, u.List() + y)
         == if Clamp(p.kind) != Clamp(u.kind) then Sign(ToInt(Clamp(p.kind) - Clamp(u.kind)))
            else if Clamp(p.value) != Clamp(u.value) then Sign(ToInt(Clamp(p.value) - Clamp(u.value)))
            else if Clamp(p.zeros) != Clamp(u.zeros) then Sign(ToInt(Clamp(p.zeros) - Clamp(u.zeros)))
            else Seen(x, y)
  {
    hide *;
    SeenOne(p.zeros, x, u.zeros, y);
    SeenOne(p.value, [p.zeros] + x, u.value, [u.zeros] + y);
    SeenOne(p.kind, [p.value] + ([p.zeros] + x), u.kind, [u.value] + ([u.zeros] + y));
    Unpacked(p, x);
    Unpacked(u, y);
  }

  lemma PartsFirst(s: string)
    requires s != []
    ensures Parts(s) == First(s).List() + Parts(Rest(s))
  {
    hide First, Rest, Part.List;
  }

  lemma SmallCut(d: int)
    requires -TWO_31 < d < TWO_31
    ensures ToInt(d) == d
  {
  }

  /** Two strings that start with numbers. */
  lemma NumberStep(a: string, b: string)
    requires Digit(a) && Digit(b)
    ensures Compare(a, b) == if StrToL(a) != StrToL(b) then ToInt(StrToL(a) - StrToL(b))
                             else if Run(a) != Run(b) then ToInt(Run(b) - Run(a))
                             else Compare(a[Run(a)..], b[Run(b)..])
  {
    hide StrToL, Run, ToInt;
  }

  lemma NumberSeen(a: string, b: string)
    requires Digit(a) && Digit(b)
    ensures Seen(Parts(a), Parts(b)) == if StrToL(a) != StrToL(b) then Sign(ToInt(StrToL(a) - StrToL(b)))
                                        else if Run(a) != Run(b) then Sign(ToInt(Run(b) - Run(a)))
                                        else Seen(Parts(a[Run(a)..]), Parts(b[Run(b)..]))
  {
    hide Value, Run, Seen, ToInt, Parts, Part.List;
    PartsFirst(a);
    PartsFirst(b);
    SeenPart(First(a), Parts(Rest(a)), First(b), Parts(Rest(b)));
  }

  /** Two strings that start with other characters. */
  lemma LetterSeen(a: string, b: string)
    requires !Digit(a) && !Digit(b) && a != [] && b != []
    ensures Seen(Parts(a), Parts(b)) == if ToLower(a[0]) != ToLower(b[0]) then Sign(ToLower(a[0]) - ToLower(b[0]))
                                        else Seen(Parts(a[1..]), Parts(b[1..]))
  {
    hide Value, Run, Seen, ToInt, Parts, Part.List;
    PartsFirst(a);
    PartsFirst(b);
    SmallCut(ToLower(a[0]) - ToLower(b[0]));
    SeenPart(First(a), Parts(Rest(a)), First(b), Parts(Rest(b)));
  }

  /** One string with a number first, and one with another character first. */
  lemma OneNumber(a: string, b: string)
    requires Digit(a) != Digit(b) && a != [] && b != []
    ensures Sign(Compare(a, b)) == Seen(Parts(a), Parts(b))
  {
    hide Value, Run, Seen, Parts, Part.List;
    PartsFirst(a);
    PartsFirst(b);
    SeenPart(First(a), Parts(Rest(a)), First(b), Parts(Rest(b)));
  }

  lemma NoNumber(a: string, b: string)
    requires !Digit(a) && !Digit(b)
    ensures Compare(a, b) == CompareText(a, b)
  {
  }

  /** The comparison tells what is seen. */
  lemma {:induction false} PartsSeen(a: string, b: string)
    requires (a == [] ==> !Digit(b)) && (b == [] ==> !Digit(a))
    ensures Sign(Compare(a, b)) == Seen(Parts(a), Parts(b))
    decreases |a| + |b|, 1
  {
    hide ToInt, Seen, Compare, Parts, StrToL, Run;
    if Digit(a) && Digit(b) {
      NumberStep(a, b);
      NumberSeen(a, b);
      if Run(a) == Run(b) {
        PartsSeen(a[Run(a)..], b[Run(b)..]);
      }
    } else if Digit(a) || Digit(b) {
      OneNumber(a, b);
    } else {
      NoNumber(a, b);
      TextSeen(a, b);
    }
  }

  lemma {:induction false} TextSeen(a: string, b: string)
    ensures Sign(CompareText(a, b)) == Seen(Parts(a), Parts(b))
    decreases |a| + |b|, if Digit(a) || Digit(b) then 2 else 0
  {
    if a != [] && b != [] {
      hide Seen, Parts, Compare;
      if Digit(a) || Digit(b) {
        PartsSeen(a, b);
      } else {
        LetterSeen(a, b);
        if ToLower(a[0]) == ToLower(b[0]) {
          TextSeen(a[1..], b[1..]);
        }
      }
    } else {
      PartsOfNone(a);
      PartsOfNone(b);
    }
  }

  lemma PartsOfNone(a: string)
    ensures a == [] <==> Parts(a) == []
  {
  }

  lemma EmptySeen(a: string)
    requires !Digit(a)
    ensures Seen(Ordinal([]), Ordinal(a)) == (if a == [] then 0 else -1)
    ensures Seen(Ordinal(a), Ordinal([])) == (if a == [] then 0 else 1)
  {
    assert [1] + ([-1] + []) == [1, -1];
    hide Seen, ToInt, Parts;
    if a == [] {
      SeenOne(1, [-1] + [], 1, [-1] + []);
      SeenOne(-1, [], -1, []);
      NoneSeen();
    } else {
      PartsFirst(a);
      var p, y := First(a), Parts(Rest(a));
      Unpacked(p, y);
      SmallCut(p.value + 1);
      SmallCut(-1 - p.value);
      SeenOne(1, [-1] + [], 1, [p.value] + ([p.zeros] + y));
      SeenOne(-1, [], p.value, [p.zeros] + y);
      SeenOne(1, [p.value] + ([p.zeros] + y), 1, [-1] + []);
      SeenOne(p.value, [p.zeros] + y, -1, []);
    }
  }

  lemma NoneSeen()
    ensures Seen([], []) == 0
  {
  }

  /** Exactly what the comparison tells, for all strings. */
  lemma CompareIsSeen(a: string, b: string)
    ensures Sign(Compare(a, b)) == Seen(Ordinal(a), Ordinal(b))
  {
    if (a == [] && Digit(b)) || (b == [] && Digit(a)) {
      assert Compare(a, b) == if a == [] then 1 else -1;
    } else if a == [] || b == [] {
      assert Compare(a, b) == CompareText(a, b);
      EmptySeen(a);
      EmptySeen(b);
    } else {
      PartsSeen(a, b);
    }
  }

  /** The comparison tells the order if and only if what it sees does. */
  lemma CompareIsOrder(a: string, b: string)
    ensures Sign(Compare(a, b)) == Order(a, b) <==> Told(Ordinal(a), Ordinal(b))
  {
    hide Compare, Seen, Lex, Ordinal, Told;
    CompareIsSeen(a, b);
    SeenIsLex(Ordinal(a), Ordinal(b));
  }

  /** Every number in the string fits a long. */
  predicate FitsLong(s: string)
    decreases |s|
  {
    if s == [] then true
    else if Digit(s) then Value(s) <= LONG_MAX && FitsLong(s[Run(s)..])
    else FitsLong(s[1..])
  }

  predicate AllLongs(x: seq<int>)
  {
    forall i :: 0 <= i < |x| ==> x[i] <= LONG_MAX
  }

  lemma LongFirst(s: string)
    requires FitsLong(s) && s != []
    ensures AllLongs(First(s).List()) && FitsLong(Rest(s))
  {
    hide Value, Run;
  }

  lemma {:induction false} LongParts(s: string)
    requires FitsLong(s)
    ensures AllLongs(Parts(s))
    decreases |s|
  {
    if s != [] {
      hide Value, Run, First, Rest, FitsLong, Part.List;
      LongFirst(s);
      LongParts(Rest(s));
      PartsFirst(s);
    }
  }

  /** On strings whose numbers fit a long the comparison tells the order if and only if the first difference does. */
  lemma LongsOrder(a: string, b: string)
    requires FitsLong(a) && FitsLong(b)
    ensures Sign(Compare(a, b)) == Order(a, b) <==> FirstTells(Ordinal(a), Ordinal(b))
  {
    hide Compare, Seen, Lex, Parts, Told, FirstTells, FitsLong;
    LongParts(a);
    LongParts(b);
    LongsTold(Ordinal(a), Ordinal(b));
    CompareIsOrder(a, b);
  }

  // ---------- the order is a total preorder ----------

  lemma {:induction false} LexSwap(x: seq<int>, y: seq<int>)
    ensures Lex(y, x) == -Lex(x, y) && (Lex(x, y) == 0 <==> x == y)
  {
    if x != [] && y != [] && x[0] == y[0] {
      LexSwap(x[1..], y[1..]);
      assert x == [x[0]] + x[1..] && y == [y[0]] + y[1..];
    }
  }

  lemma {:induction false} LexTransitive(x: seq<int>, y: seq<int>, z: seq<int>)
    requires Lex(x, y) <= 0 && Lex(y, z) <= 0
    ensures Lex(x, z) <= 0
  {
    if x != [] && y != [] && z != [] && x[0] == y[0] == z[0] {
      LexTransitive(x[1..], y[1..], z[1..]);
    }
  }

  /** Every number in the string is below 2^31, and has fewer digits than that. */
  predicate Small(s: string)
    decreases |s|
  {
    if s == [] then true
    else if Digit(s) then Value(s) < TWO_31 && Run(s) < TWO_31 && Small(s[Run(s)..])
    else Small(s[1..])
  }

  lemma ToldOne(p: int, x: seq<int>, u: int, y: seq<int>)
    requires p <= LONG_MAX && u <= LONG_MAX && -TWO_31 < p - u < TWO_31
    ensures Told([p] + x, [u] + y) <==> (p == u ==> Told(x, y))
  {
    assert ([p] + x)[1..] == x && ([u] + y)[1..] == y;
    if p != u {
      IntTells(p - u);
    }
  }

  predicate SmallPart(p: Part)
  {
    0 <= p.kind <= 1 && 0 <= p.value < TWO_31 && -TWO_31 < p.zeros <= 0
  }

  lemma ToldPart(p: Part, x: seq<int>, u: Part, y: seq<int>)
    requires SmallPart(p) && SmallPart(u)
    ensures Told(p.List() + x, u.List() + y) <==> (p == u ==> Told(x, y))
  {
    hide Told, Part.List;
    ToldOne(p.zeros, x, u.zeros, y);
    ToldOne(p.value, [p.zeros] + x, u.value, [u.zeros] + y);
    ToldOne(p.kind, [p.value] + ([p.zeros] + x), u.kind, [u.value] + ([u.zeros] + y));
    Unpacked(p, x);
    Unpacked(u, y);
  }

  lemma SmallFirst(a: string)
    requires Small(a) && a != []
    ensures SmallPart(First(a)) && Small(Rest(a))
  {
    hide Value, Run;
  }

  /** Small numbers are told. */
  lemma {:induction false} SmallIsTold(a: string, b: string)
    requires Small(a) && Small(b)
    ensures Told(Parts(a), Parts(b))
    decreases |a| + |b|
  {
    PartsOfNone(a);
    PartsOfNone(b);
    if a == [] || b == [] {
      hide Parts;
    } else {
      hide *;
      SmallFirst(a);
      SmallFirst(b);
      SmallIsTold(Rest(a), Rest(b));
      PartsFirst(a);
      PartsFirst(b);
      ToldPart(First(a), Parts(Rest(a)), First(b), Parts(Rest(b)));
    }
  }

  /** What an empty string counts as. */
  lemma EmptyTold(b: string)
    requires Small(b) && b != []
    ensures Told(Ordinal([]), Ordinal(b)) && Told(Ordinal(b), Ordinal([]))
  {
    hide Value, Run, Told, Parts, Small, ToLower;
    SmallFirst(b);
    PartsFirst(b);
    var p, y := First(b), Parts(Rest(b));
    Unpacked(p, y);
    assert [1] + ([-1] + []) == [1, -1];
    if p.kind == 1 {
      LetterBelow(b);
      ToldOne(-1, [], p.value, [p.zeros] + y);
      ToldOne(p.value, [p.zeros] + y, -1, []);
    }
    ToldOne(1, [-1] + [], p.kind, [p.value] + ([p.zeros] + y));
    ToldOne(p.kind, [p.value] + ([p.zeros] + y), 1, [-1] + []);
  }

  lemma LetterBelow(b: string)
    requires b != [] && !Digit(b)
    ensures 0 <= First(b).value < TWO_31 - 1
  {
  }

  lemma SmallOrdinal(a: string, b: string)
    requires Small(a) && Small(b)
    ensures Told(Ordinal(a), Ordinal(b))
  {
    if a != [] && b != [] {
      SmallIsTold(a, b);
    } else if a != [] {
      EmptyTold(a);
    } else if b != [] {
      EmptyTold(b);
    }
  }

  /** On strings without large numbers the comparison is a total preorder. */
  lemma SmallIsPreorder(a: string, b: string, c: string)
    requires Small(a) && Small(b) && Small(c)
    ensures Sign(Compare(b, a)) == -Sign(Compare(a, b))
    ensures Compare(a, b) <= 0 && Compare(b, c) <= 0 ==> Compare(a, c) <= 0
  {
    hide Compare, Lex, Ordinal, Told, Small;
    forall x, y | (x == a || x == b || x == c) && (y == a || y == b || y == c)
      ensures Sign(Compare(x, y)) == Order(x, y)
    {
      SmallOrdinal(x, y);
      CompareIsOrder(x, y);
    }
    LexSwap(Ordinal(a), Ordinal(b));
    if Compare(a, b) <= 0 && Compare(b, c) <= 0 {
      LexTransitive(Ordinal(a), Ordinal(b), Ordinal(c));
    }
  }

  // ---------- small examples ----------

  /** Numbers count, letters do without case, digits come first, and then more digits. */
  lemma Examples()
    ensures Compare("a2", "a10") == -8 && Compare("A", "a") == 0 && Compare("b", "A") == 1
    ensures Compare("1", "a") == -1 && Compare("01", "1") == -1
    ensures Compare("", "1") == 1 && Compare("", "a") == -1 && Compare("ab", "a") == 1
  {
    Numeral("2");
    Numeral("10");
    Numeral("1");
    Numeral("01");
    assert Decimal("2") == 2 && Decimal("1") == 1;
    assert "10"[..1] == "1" && "01"[..1] == "0" && Decimal("0") == 0;
    assert "a2"[1..] == "2" && "a10"[1..] == "10";
    assert Compare("2", "10") == -8;
    assert "1"[1..] == "" && "a"[1..] == "" && "ab"[1..] == "b";
  }

  /** All of a string of digits. */
  lemma Numeral(s: string)
    requires s != [] && forall i :: 0 <= i < |s| ==> IsDigit(s[i])
    ensures Run(s) == |s| && Value(s) == Decimal(s)
  {
    assert s[..|s|] == s;
  }

  // ---------- numbers in names ----------

  function DigitOf(n: nat): (c: char)
    requires n < 10
    ensures IsDigit(c) && Face(c) == n
  {
    '0' + n as char
  }

  /** The number in decimal, as "%d" prints it. */
  function Dec(n: nat): (s: string)
    ensures s != [] && forall i :: 0 <= i < |s| ==> IsDigit(s[i])
    ensures Decimal(s) == n
  {
    if n < 10 then
      assert [DigitOf(n)][..0] == [];
      [DigitOf(n)]
    else
      var (s, d) := (Dec(n / 10), DigitOf(n % 10));
      assert (s + [d])[..|s + [d]| - 1] == s;
      s + [d]
  }

  lemma {:induction false} RunIs(s: string, n: nat)
    requires n <= |s| && (forall i :: 0 <= i < n ==> IsDigit(s[i])) && (n < |s| ==> !IsDigit(s[n]))
    ensures Run(s) == n
  {
  }

  /** A number at the start of a string. */
  lemma NumberFirst(n: nat, rest: string)
    requires !Digit(rest)
    ensures Digit(Dec(n) + rest) && Run(Dec(n) + rest) == |Dec(n)| && (Dec(n) + rest)[|Dec(n)|..] == rest
    ensures Value(Dec(n) + rest) == n
  {
    var s := Dec(n) + rest;
    RunIs(s, |Dec(n)|);
    assert s[..|Dec(n)|] == Dec(n);
  }

  lemma CompareNumbers(i: nat, a: string, j: nat, b: string)
    requires i < TWO_31 && j < TWO_31 && !Digit(a) && !Digit(b)
    ensures Sign(Compare(Dec(i) + a, Dec(j) + b)) == if i != j then Sign(i - j) else Sign(Compare(a, b))
  {
    hide Compare, Value, Run, Dec, Decimal, Digit, ToInt;
    NumberFirst(i, a);
    NumberFirst(j, b);
    SmallCut(i - j);
    NumberStep(Dec(i) + a, Dec(j) + b);
  }

  /** A beginning that two strings share, when it does not end inside a number. */
  lemma {:induction false} SamePrefix(p: string, a: string, b: string)
    requires Digit(a) && Digit(b) && (p == [] || !IsDigit(p[|p| - 1]))
    ensures Compare(p + a, p + b) == Compare(a, b)
    decreases |p|, if Digit(p) then 0 else 1
  {
    if p == [] {
      assert p + a == a && p + b == b;
    } else if Digit(p) {
      var m := Run(p);
      RunIs(p + a, m);
      RunIs(p + b, m);
      assert (p + a)[..m] == p[..m] == (p + b)[..m];
      assert (p + a)[m..] == p[m..] + a && (p + b)[m..] == p[m..] + b;
      SamePrefix(p[m..], a, b);
    } else {
      SameText(p, a, b);
    }
  }

  lemma {:induction false} SameText(p: string, a: string, b: string)
    requires Digit(a) && Digit(b) && (p == [] || !IsDigit(p[|p| - 1]))
    ensures CompareText(p + a, p + b) == Compare(a, b)
    decreases |p|, if Digit(p) then 1 else 0
  {
    if p == [] {
      assert p + a == a && p + b == b;
    } else if Digit(p) {
      SamePrefix(p, a, b);
    } else {
      assert (p + a)[1..] == p[1..] + a && (p + b)[1..] == p[1..] + b;
      SameText(p[1..], a, b);
    }
  }

  lemma NothingSame()
    ensures Compare([], []) == 0
  {
  }

  /** A file name: directory, prefix and UUID, then the first and the last index. */
  function Name(stem: string, first: nat, last: nat): string
  {
    stem + "-" + Dec(first) + "-" + Dec(last)
  }

  /** Names in one directory with one UUID compare as their indexes do. */
  lemma NamesByIndex(stem: string, i: nat, k: nat, j: nat, l: nat)
    requires i < TWO_31 && k < TWO_31 && j < TWO_31 && l < TWO_31
    ensures Sign(Compare(Name(stem, i, k), Name(stem, j, l))) == if i != j then Sign(i - j) else Sign(k - l)
  {
    hide Compare, CompareText, Dec, Decimal;
    var a, b := "-" + Dec(k), "-" + Dec(l);
    assert Name(stem, i, k) == (stem + "-") + (Dec(i) + a) && Name(stem, j, l) == (stem + "-") + (Dec(j) + b);
    SamePrefix(stem + "-", Dec(i) + a, Dec(j) + b);
    CompareNumbers(i, a, j, b);
    SamePrefix("-", Dec(k), Dec(l));
    CompareNumbers(k, [], l, []);
    NothingSame();
    assert Dec(k) + [] == Dec(k) && Dec(l) + [] == Dec(l);
  }

  lemma LexOne(p: int, x: seq<int>, u: int, y: seq<int>)
    ensures Lex([p] + x, [u] + y) == if p != u then Sign(p - u) else Lex(x, y)
  {
    assert ([p] + x)[1..] == x && ([u] + y)[1..] == y;
  }

  lemma NumbersInOrder(a: string, b: string)
    requires Digit(a) && Digit(b)
    ensures Order(a, b) == if Value(a) != Value(b) then Sign(Value(a) - Value(b))
                           else if Run(a) != Run(b) then Sign(Run(b) - Run(a))
                           else Lex(Parts(a[Run(a)..]), Parts(b[Run(b)..]))
  {
    hide Value, Run, Lex;
    hide Parts, Part.List;
    PartsFirst(a);
    PartsFirst(b);
    var (p, u, x, y) := (First(a), First(b), Parts(Rest(a)), Parts(Rest(b)));
    LexOne(p.zeros, x, u.zeros, y);
    LexOne(p.value, [p.zeros] + x, u.value, [u.zeros] + y);
    LexOne(p.kind, [p.value] + ([p.zeros] + x), u.kind, [u.value] + ([u.zeros] + y));
    Unpacked(p, x);
    Unpacked(u, y);
  }

  /** Numbers 2^32 apart compare as equal, and numbers 2^31 apart the wrong way round. */
  lemma LargeNumbers()
    ensures Compare(Dec(4294967296), Dec(0)) == 0 && Order(Dec(4294967296), Dec(0)) == 1
    ensures Compare(Dec(2147483648), Dec(0)) < 0 && Order(Dec(2147483648), Dec(0)) == 1
  {
    hide Compare, Dec, Decimal, Lex, Value, Run;
    forall n: nat | n == TWO_31 || n == TWO_32
      ensures Compare(Dec(n), Dec(0)) == ToInt(n) && Order(Dec(n), Dec(0)) == 1
    {
      assert Dec(n) + [] == Dec(n) && Dec(0) + [] == Dec(0);
      NumberFirst(n, []);
      NumberFirst(0, []);
      NumberStep(Dec(n), Dec(0));
      NumbersInOrder(Dec(n), Dec(0));
    }
  }

  lemma LastDigit(n: nat)
    requires n >= 10
    ensures |Dec(n)| == |Dec(n / 10)| + 1
  {
  }

  /**
   Two different numbers beyond the longs, with as many digits, look alike: what follows them decides,
   whatever it is.
   */
  lemma LookAlike(m: nat, a: string, n: nat, b: string)
    requires m >= LONG_MAX && n >= LONG_MAX && |Dec(m)| == |Dec(n)| && !Digit(a) && !Digit(b)
    ensures Compare(Dec(m) + a, Dec(n) + b) == Compare(a, b)
    ensures m != n ==> Order(Dec(m) + a, Dec(n) + b) == Sign(m - n)
  {
    hide Compare, Dec, Decimal, Lex, Value, Run;
    NumberFirst(m, a);
    NumberFirst(n, b);
    NumberStep(Dec(m) + a, Dec(n) + b);
    NumbersInOrder(Dec(m) + a, Dec(n) + b);
  }

  /** And of two such numbers the one with more digits comes first. */
  lemma LongerFirst(m: nat, a: string, n: nat, b: string)
    requires m >= LONG_MAX && n >= LONG_MAX && !Digit(a) && !Digit(b)
    requires |Dec(m)| > |Dec(n)| && |Dec(m)| - |Dec(n)| < TWO_31
    ensures Compare(Dec(m) + a, Dec(n) + b) < 0 && (m != n ==> Order(Dec(m) + a, Dec(n) + b) == Sign(m - n))
  {
    hide Compare, Dec, Decimal, Lex, Value, Run, ToInt;
    NumberFirst(m, a);
    NumberFirst(n, b);
    NumberStep(Dec(m) + a, Dec(n) + b);
    NumbersInOrder(Dec(m) + a, Dec(n) + b);
    SmallCut(|Dec(n)| - |Dec(m)|);
  }

  /** So the largest long and the number after it compare as equal. */
  lemma BeyondLong()
    ensures Compare(Dec(9223372036854775807), Dec(9223372036854775808)) == 0
    ensures Order(Dec(9223372036854775807), Dec(9223372036854775808)) == -1
  {
    hide Compare, Dec, Decimal, Lex, Value, Run;
    LastDigit(LONG_MAX);
    LastDigit(LONG_MAX + 1);
    NothingSame();
    LookAlike(LONG_MAX, [], LONG_MAX + 1, []);
    assert Dec(LONG_MAX) + [] == Dec(LONG_MAX) && Dec(LONG_MAX + 1) + [] == Dec(LONG_MAX + 1);
  }

  function Noughts(n: nat): (s: string)
    ensures |s| == n && forall i :: 0 <= i < n ==> s[i] == '0'
    ensures Decimal(s) == 0
  {
    if n == 0 then []
    else
      assert (Noughts(n - 1) + ['0'])[..n - 1] == Noughts(n - 1);
      Noughts(n - 1) + ['0']
  }

  /** A nought and 2^32 more noughts compare as equal. */
  lemma LongRuns()
    ensures Compare(Noughts(TWO_32 + 1), Noughts(1)) == 0 && Order(Noughts(TWO_32 + 1), Noughts(1)) == -1
  {
    hide Compare, Decimal, Lex, Value, Run, Noughts;
    NoughtsFirst(TWO_32 + 1);
    NoughtsFirst(1);
    NumberStep(Noughts(TWO_32 + 1), Noughts(1));
    NumbersInOrder(Noughts(TWO_32 + 1), Noughts(1));
  }

  lemma NoughtsFirst(n: nat)
    requires n > 0
    ensures Digit(Noughts(n)) && Run(Noughts(n)) == n && Value(Noughts(n)) == 0
  {
    RunIs(Noughts(n), n);
    assert Noughts(n)[..n] == Noughts(n);
  }
}
