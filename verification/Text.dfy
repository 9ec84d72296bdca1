/** Decimal printing, and how to read it back, and splitting at a separator, as fmt.Sprintf("%d") and strings.Split
    do them. */
module Text {
  import opened Replies

  predicate IsDigit(c: char) { '0' <= c <= '9' }

  function Digit(d: nat): (c: char)
    requires d < 10
    ensures IsDigit(c)
  {
    ('0' as int + d) as char
  }

  function Decimal(n: nat): string {
    if n < 10 then [Digit(n)] else Decimal(n / 10) + [Digit(n % 10)]
  }

  lemma {:induction false} OnlyDigits(n: nat)
    ensures Decimal(n) != [] && forall c :: c in Decimal(n) ==> IsDigit(c)
  {
    if n >= 10 {
      OnlyDigits(n / 10);
    }
  }

  function ValueOf(s: string): int {
    if s == [] then 0 else 10 * ValueOf(s[..|s| - 1]) + (s[|s| - 1] as int - '0' as int)
  }

  lemma {:induction false} ReadsBack(n: nat)
    ensures ValueOf(Decimal(n)) == n
  {
    if n < 10 {
      assert Decimal(n)[..0] == [];
    } else {
      ReadsBack(n / 10);
      assert Decimal(n)[..|Decimal(n)| - 1] == Decimal(n / 10);
    }
  }

  /** Different numbers print differently. */
  lemma DecimalInjective(m: nat, n: nat)
    ensures Decimal(m) == Decimal(n) <==> m == n
  {
    ReadsBack(m);
    ReadsBack(n);
  }

  /** How a number is printed: digits only, and no leading zero unless it is the only digit. */
  ghost predicate Canonical(s: string) {
    && s != []
    && (forall k :: 0 <= k < |s| ==> IsDigit(s[k]))
    && (s[0] == '0' ==> |s| == 1)
  }

  lemma {:induction false} ZeroOnlyInFront(n: nat)
    ensures |Decimal(n)| > 0 && (Decimal(n)[0] == '0' <==> n == 0)
  {
    if n >= 10 {
      ZeroOnlyInFront(n / 10);
    }
  }

  lemma {:induction false} CanonicalValue(s: string)
    requires Canonical(s)
    ensures ValueOf(s) >= 0 && s == Decimal(ValueOf(s)) && (ValueOf(s) < 10 <==> |s| == 1)
  {
    var n := |s| - 1;
    var d := s[n] as int - '0' as int;
    assert IsDigit(s[n]);
    if n == 0 {
      assert s[..0] == [];
      assert s == [Digit(d)];
    } else {
      assert Canonical(s[..n]);
      CanonicalValue(s[..n]);
      if n == 1 {
        ZeroOnlyInFront(ValueOf(s[..n]));
      }
      var v := ValueOf(s[..n]);
      assert v > 0 && ValueOf(s) == 10 * v + d;
      assert ValueOf(s) / 10 == v && ValueOf(s) % 10 == d;
      assert s == s[..n] + [Digit(d)];
    }
  }

  /** `Decimal(n)` is the one canonical text with the value `n`. */
  lemma DecimalIff(s: string, n: nat)
    ensures s == Decimal(n) <==> Canonical(s) && ValueOf(s) == n
  {
    OnlyDigits(n);
    ReadsBack(n);
    ZeroOnlyInFront(n);
    if Canonical(s) {
      CanonicalValue(s);
    }
    if n == 0 {
      assert Decimal(n) == [Digit(0)];
    }
  }

  // ---------------------------------------------------------------- printing and scanning numbers between literals

  function DigitsAhead(s: string): (k: nat)
    ensures k <= |s|
  {
    if s == [] || !IsDigit(s[0]) then 0 else 1 + DigitsAhead(s[1..])
  }

  lemma {:induction false} DigitsEnd(digits: string, rest: string)
    requires forall c :: c in digits ==> IsDigit(c)
    requires rest != [] && !IsDigit(rest[0])
    ensures DigitsAhead(digits + rest) == |digits|
  {
    if digits == [] {
      assert digits + rest == rest;
    } else {
      assert digits[0] in digits;
      DigitsEnd(digits[1..], rest);
      assert (digits + rest)[1..] == digits[1..] + rest;
    }
  }

  /** The literals with a number between each two of them, and `tail` after the last. */
  function Printed(literals: seq<string>, numbers: seq<nat>, tail: string): string
    requires |literals| == |numbers| + 1
  {
    if numbers == [] then literals[0] + tail
    else literals[0] + (Decimal(numbers[0]) + Printed(literals[1..], numbers[1..], tail))
  }

  /** The numbers found between the literals and what follows the last one, if `s` has that form. */
  function Scanned(s: string, literals: seq<string>): (r: Option<(seq<int>, string)>)
    requires literals != []
    ensures r.Some? ==> |r.value.0| == |literals| - 1
    decreases |literals|
  {
    if !(literals[0] <= s) then None
    else
      var rest := s[|literals[0]|..];
      if |literals| == 1 then Some(([], rest))
      else
        var k := DigitsAhead(rest);
        match Scanned(rest[k..], literals[1..])
        case None => None
        case Some(found) => Some(([ValueOf(rest[..k])] + found.0, found.1))
  }

  lemma {:induction false} NumberAhead(n: nat, more: string)
    requires more != [] && !IsDigit(more[0])
    ensures var s := Decimal(n) + more;
            ValueOf(s[..DigitsAhead(s)]) == n && s[DigitsAhead(s)..] == more
  {
    OnlyDigits(n);
    ReadsBack(n);
    DigitsEnd(Decimal(n), more);
    assert (Decimal(n) + more)[..|Decimal(n)|] == Decimal(n);
  }

  lemma {:induction false} PrintedBegins(literals: seq<string>, numbers: seq<nat>, tail: string)
    requires |literals| == |numbers| + 1
    ensures literals[0] <= Printed(literals, numbers, tail)
  {
  }

  lemma {:induction false} ScanOne(literals: seq<string>, n: nat, more: string, found: (seq<int>, string))
    requires |literals| > 1 && more != [] && !IsDigit(more[0])
    requires Scanned(more, literals[1..]) == Some(found)
    ensures Scanned(literals[0] + (Decimal(n) + more), literals) == Some(([n] + found.0, found.1))
  {
    var s := literals[0] + (Decimal(n) + more);
    assert s[|literals[0]|..] == Decimal(n) + more;
    NumberAhead(n, more);
  }

  /** Scanning undoes printing. */
  lemma {:induction false} PrintThenScan(literals: seq<string>, numbers: seq<nat>, tail: string)
    requires |literals| == |numbers| + 1
    requires forall k :: 0 < k < |literals| ==> literals[k] != [] && !IsDigit(literals[k][0])
    ensures Scanned(Printed(literals, numbers, tail), literals) == Some((numbers, tail))
  {
    if numbers == [] {
      assert (literals[0] + tail)[|literals[0]|..] == tail;
    } else {
      var more := Printed(literals[1..], numbers[1..], tail);
      PrintThenScan(literals[1..], numbers[1..], tail);
      PrintedBegins(literals[1..], numbers[1..], tail);
      assert literals[1] != [] && more[0] == literals[1][0];
      ScanOne(literals, numbers[0], more, (numbers[1..], tail));
      assert [numbers[0]] + numbers[1..] == numbers;
    }
  }

  // ---------------------------------------------------------------- splitting and joining

  function Split(s: string, sep: char): (parts: seq<string>)
    ensures parts != []
  {
    if s == [] then [""]
    else
      var rest := Split(s[1..], sep);
      if s[0] == sep then [""] + rest else [[s[0]] + rest[0]] + rest[1..]
  }

  function Join(parts: seq<string>, sep: char): string
    requires parts != []
  {
    if |parts| == 1 then parts[0] else parts[0] + [sep] + Join(parts[1..], sep)
  }

  function CountChar(s: string, c: char): nat {
    if s == [] then 0 else (if s[0] == c then 1 else 0) + CountChar(s[1..], c)
  }

  ghost predicate Free(parts: seq<string>, sep: char) {
    forall k :: 0 <= k < |parts| ==> sep !in parts[k]
  }

  /** Splitting loses nothing, leaves no separator in a part, and makes one part more than there are separators. */
  lemma {:induction false} SplitThenJoin(s: string, sep: char)
    ensures Join(Split(s, sep), sep) == s
    ensures Free(Split(s, sep), sep)
    ensures |Split(s, sep)| == CountChar(s, sep) + 1
  {
    if s != [] {
      SplitThenJoin(s[1..], sep);
      var rest, parts := Split(s[1..], sep), Split(s, sep);
      if s[0] == sep {
        assert parts[1..] == rest;
        assert s == [] + [sep] + s[1..];
      } else {
        assert parts[1..] == rest[1..];
        assert s == [s[0]] + s[1..];
        if |rest| > 1 {
          assert Join(parts, sep) == [s[0]] + (rest[0] + [sep] + Join(rest[1..], sep));
        }
      }
    }
  }

  /** Joining parts that contain no separator is undone by splitting. */
  lemma {:induction false} JoinThenSplit(parts: seq<string>, sep: char)
    requires parts != [] && Free(parts, sep)
    ensures Split(Join(parts, sep), sep) == parts
    decreases |parts|, if parts == [] then 0 else |parts[0]|
  {
    var s, head := Join(parts, sep), parts[0];
    if head == [] {
      if |parts| == 1 {
        assert parts == [""];
      } else {
        JoinThenSplit(parts[1..], sep);
        assert s == [sep] + Join(parts[1..], sep);
        assert parts == [""] + parts[1..];
      }
    } else {
      var shorter := [head[1..]] + parts[1..];
      assert forall k :: 0 < k < |parts| ==> shorter[k] == parts[k];
      JoinThenSplit(shorter, sep);
      assert shorter[1..] == parts[1..];
      assert head == [head[0]] + head[1..];
      assert s == [head[0]] + Join(shorter, sep);
      assert s[0] == head[0] && head[0] in head;
      assert s[1..] == Join(shorter, sep);
      assert [[head[0]] + head[1..]] + parts[1..] == parts;
    }
  }

  lemma {:induction false} CountConcat(s: string, t: string, c: char)
    ensures CountChar(s + t, c) == CountChar(s, c) + CountChar(t, c)
  {
    if s == [] {
      assert s + t == t;
    } else {
      CountConcat(s[1..], t, c);
      assert (s + t)[1..] == s[1..] + t;
    }
  }

  lemma {:induction false} CountZero(s: string, c: char)
    ensures CountChar(s, c) == 0 <==> c !in s
  {
    if s != [] {
      CountZero(s[1..], c);
      assert s == [s[0]] + s[1..];
    }
  }

  // ---------------------------------------------------------------- joining more

  lemma {:induction false} AppendPart(parts: seq<string>, y: string, sep: char)
    requires parts != []
    ensures Join(parts + [y], sep) == Join(parts, sep) + [sep] + y
  {
    assert (parts + [y])[1..] == parts[1..] + [y];
    if |parts| > 1 {
      AppendPart(parts[1..], y, sep);
    }
  }

  lemma {:induction false} AppendToLast(parts: seq<string>, x: string, sep: char)
    requires parts != []
    ensures Join(parts[..|parts| - 1] + [parts[|parts| - 1] + x], sep) == Join(parts, sep) + x
  {
    var longer := parts[..|parts| - 1] + [parts[|parts| - 1] + x];
    if |parts| > 1 {
      AppendToLast(parts[1..], x, sep);
      assert longer[1..] == parts[1..][..|parts| - 2] + [parts[|parts| - 1] + x];
    }
  }

  lemma {:induction false} AppendFour(parts: seq<string>, w: string, x: string, y: string, z: string, sep: char)
    requires parts != []
    ensures Join(parts + [w, x, y, z], sep) == Join(parts, sep) + [sep] + w + [sep] + x + [sep] + y + [sep] + z
  {
    AppendPart(parts, w, sep);
    AppendPart(parts + [w], x, sep);
    AppendPart(parts + [w] + [x], y, sep);
    AppendPart(parts + [w] + [x] + [y], z, sep);
    assert parts + [w] + [x] + [y] + [z] == parts + [w, x, y, z];
  }
}
