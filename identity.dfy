/** The signed-in player and the key of a private channel between two players. */
module Identity {

  /** The current user as the page reads it at start-up: a unique login code and a display name. */
  datatype User = User(code: string, name: string)

  /** The separator `join` puts between the two codes of a channel key. */
  const Separator: char := '_'

  /** The order `Array.prototype.sort()` uses without a comparator on two strings:
      character by character, a proper prefix first. */
  predicate LexLe(a: string, b: string) {
    if a == [] then true
    else if b == [] then false
    else if a[0] != b[0] then a[0] < b[0]
    else LexLe(a[1..], b[1..])
  }

  lemma {:induction false} LexLeTotal(a: string, b: string)
    ensures LexLe(a, b) || LexLe(b, a)
  {
    if a != [] && b != [] && a[0] == b[0] {
      LexLeTotal(a[1..], b[1..]);
    }
  }

  lemma {:induction false} LexLeAntisymmetric(a: string, b: string)
    requires LexLe(a, b) && LexLe(b, a)
    ensures a == b
  {
    if a != [] && b != [] {
      LexLeAntisymmetric(a[1..], b[1..]);
      assert a == [a[0]] + a[1..] && b == [b[0]] + b[1..];
    }
  }

  /** `[codeA, codeB].sort().join("_")`: the two codes, smaller first, joined by the separator. */
  function ChatId(codeA: string, codeB: string): string {
    if LexLe(codeA, codeB) then codeA + [Separator] + codeB else codeB + [Separator] + codeA
  }

  /** Both participants compute the same channel key. */
  lemma ChatIdSymmetric(a: string, b: string)
    ensures ChatId(a, b) == ChatId(b, a)
  {
    LexLeTotal(a, b);
    if LexLe(a, b) && LexLe(b, a) {
      LexLeAntisymmetric(a, b);
    }
  }

  /** The key is the smaller code, the separator and the larger code. */
  lemma ChatIdShape(a: string, b: string)
    ensures exists lo, hi :: ChatId(a, b) == lo + [Separator] + hi && LexLe(lo, hi)
                           && multiset{lo, hi} == multiset{a, b}
  {
    LexLeTotal(a, b);
    if LexLe(a, b) {
      assert ChatId(a, b) == a + [Separator] + b;
    } else {
      assert ChatId(a, b) == b + [Separator] + a;
    }
  }

  predicate SeparatorFree(code: string) {
    Separator !in code
  }

  /** Position of the first separator in `s`, or `|s|` when there is none. */
  function SeparatorIndex(s: string): nat {
    if s == [] || s[0] == Separator then 0 else 1 + SeparatorIndex(s[1..])
  }

  lemma {:induction false} SeparatorIndexOfJoin(x: string, y: string)
    requires SeparatorFree(x)
    ensures SeparatorIndex(x + [Separator] + y) == |x|
  {
    if x != [] {
      assert (x + [Separator] + y)[1..] == x[1..] + [Separator] + y;
      SeparatorIndexOfJoin(x[1..], y);
    }
  }

  /** A joined key splits back into its two parts when neither part holds the separator. */
  lemma JoinInjective(x: string, y: string, x': string, y': string)
    requires SeparatorFree(x) && SeparatorFree(x')
    requires x + [Separator] + y == x' + [Separator] + y'
    ensures x == x' && y == y'
  {
    var j, j' := x + [Separator] + y, x' + [Separator] + y';
    SeparatorIndexOfJoin(x, y);
    SeparatorIndexOfJoin(x', y');
    assert x == j[..|x|] && x' == j'[..|x'|];
    assert y == j[|x| + 1..] && y' == j'[|x'| + 1..];
  }

  /** The key determines the unordered pair of participants, as long as codes are separator-free. */
  lemma ChatIdDeterminesPair(a: string, b: string, c: string, d: string)
    requires SeparatorFree(a) && SeparatorFree(b) && SeparatorFree(c) && SeparatorFree(d)
    requires ChatId(a, b) == ChatId(c, d)
    ensures multiset{a, b} == multiset{c, d}
  {
    var lo, hi := if LexLe(a, b) then a else b, if LexLe(a, b) then b else a;
    var lo', hi' := if LexLe(c, d) then c else d, if LexLe(c, d) then d else c;
    assert ChatId(a, b) == lo + [Separator] + hi;
    assert ChatId(c, d) == lo' + [Separator] + hi';
    JoinInjective(lo, hi, lo', hi');
  }

  /** Talking to two different players from one account opens two different channels. */
  lemma ChatIdCollisionFree(a: string, b: string, c: string)
    requires SeparatorFree(a) && SeparatorFree(b) && SeparatorFree(c)
    requires ChatId(a, b) == ChatId(a, c)
    ensures b == c
  {
    ChatIdDeterminesPair(a, b, a, c);
    assert multiset{a, b}[b] == multiset{a, c}[b];
  }

  /** Without separator-free codes the key is ambiguous: two different pairs share a channel. */
  lemma SeparatorInCodeCollides()
    ensures ChatId("a_b", "c") == ChatId("a", "b_c")
  {
  }
}
