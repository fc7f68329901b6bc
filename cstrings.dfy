/** C strings as the game uses them: fixed `char[50]` buffers filled by
    truncating copies, ordered by `strcmp`, and the `tolower` of the C locale.
    A Dafny `char` stands for one byte of the C string; strings hold no NUL. */
module CStrings {

  /** A pointer that may be NULL: `None` is NULL, `Some(v)` points at `v`. */
  datatype Option<T> = None | Some(value: T)

  /** TAMANHO_MAX_STRING: every buffer holds at most 49 characters plus the terminator. */
  const MaxString: nat := 50

  /** `strncpy(dst, src, MaxString - 1)` followed by `dst[MaxString - 1] = '\0'`:
      the longest prefix of `s` that fits in a buffer. */
  function Truncate(s: string): (r: string)
    ensures |r| < MaxString
    ensures r <= s
    ensures |s| < MaxString ==> r == s
    ensures |s| >= MaxString ==> |r| == MaxString - 1
  {
    if |s| < MaxString then s else s[..MaxString - 1]
  }

  /** The sign of `strcmp(a, b)`: the first differing byte decides, and a
      proper prefix comes first (its terminator is below any byte). */
  function Compare(a: string, b: string): (r: int)
    ensures -1 <= r <= 1
    ensures r == 0 <==> a == b
  {
    if a == [] then (if b == [] then 0 else -1)
    else if b == [] then 1
    else if a[0] < b[0] then -1
    else if a[0] > b[0] then 1
    else
      assert a == [a[0]] + a[1..] && b == [b[0]] + b[1..];
      Compare(a[1..], b[1..])
  }

  /** `strcmp(a, b) < 0`. Dafny's own `<` on sequences means "proper prefix". */
  predicate Less(a: string, b: string) {
    Compare(a, b) < 0
  }

  /** Swapping the operands of `strcmp` flips its sign. */
  lemma {:induction false} CompareFlip(a: string, b: string)
    ensures Compare(b, a) == -Compare(a, b)
  {
    if a != [] && b != [] && a[0] == b[0] {
      CompareFlip(a[1..], b[1..]);
    }
  }

  /** `strcmp` order is transitive. */
  lemma {:induction false} LessTransitive(a: string, b: string, c: string)
    requires Less(a, b) && Less(b, c)
    ensures Less(a, c)
  {
    if a != [] && b != [] && c != [] && a[0] == b[0] && b[0] == c[0] {
      LessTransitive(a[1..], b[1..], c[1..]);
    }
  }

  /** Exactly one of `a < b`, `a == b`, `b < a` holds under `strcmp` order. */
  lemma Trichotomy(a: string, b: string)
    ensures Less(a, b) || a == b || Less(b, a)
    ensures !(Less(a, b) && Less(b, a))
    ensures !Less(a, a)
  {
    CompareFlip(a, b);
  }

  /** `tolower` in the C locale: only 'A'..'Z' change. */
  function ToLower(c: char): (r: char)
    ensures 'A' <= c <= 'Z' ==> 'a' <= r <= 'z' && r as int - c as int == 'a' as int - 'A' as int
    ensures !('A' <= c <= 'Z') ==> r == c
  {
    if 'A' <= c <= 'Z' then (c as int - 'A' as int + 'a' as int) as char else c
  }
}
