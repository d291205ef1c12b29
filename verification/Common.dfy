/** Option and Result, used wherever the source returns `Option`, `Result` or panics. */
module Wrappers {
  datatype Option<+T> = None | Some(value: T)

  datatype Result<+T, +E> = Ok(value: T) | Err(error: E)
}

/** The few facts about multiplication and division that the range arithmetic needs. */
module Arithmetic {
  lemma MulMonotone(a: int, b: int, d: int)
    requires a <= b && 0 <= d
    ensures a * d <= b * d
  {}

  lemma MulSub(a: int, b: int, d: int)
    ensures (a - b) * d == a * d - b * d
    ensures a * (-d) == -(a * d)
  {}

  lemma MulNest(a: int, j: int, s: int, d: int)
    ensures (a + j * s) * d == a * d + j * (d * s)
  {
    assert (j * s) * d == j * (s * d);
  }

  /** Quotient and remainder are determined by `a == q * d + r`. */
  lemma DivUnique(a: int, d: int, q: int, r: int)
    requires d > 0 && a == q * d + r && 0 <= r < d
    ensures a / d == q && a % d == r
  {
    var x := q - a / d;
    assert a == (a / d) * d + a % d;
    assert x * d == a % d - r;
    if x >= 1 {
      MulMonotone(1, x, d);
    } else if x <= -1 {
      MulMonotone(x, -1, d);
    }
  }

  lemma DivBounds(a: int, d: int)
    requires d > 0 && a >= 0
    ensures 0 <= a / d <= a
    ensures (a / d) * d <= a < (a / d) * d + d
  {
    assert a == (a / d) * d + a % d;
    if a / d < 0 {
      MulMonotone(a / d, -1, d);
    }
    MulMonotone(1, d, a / d);
  }
}

/** `str::trim`. */
module Whitespace {
  /** The Unicode White_Space property, which `trim` strips. */
  predicate IsWhiteSpace(c: char) {
    var n := c as int;
    || 9 <= n <= 13 || n == 0x20 || n == 0x85 || n == 0xA0 || n == 0x1680 || 0x2000 <= n <= 0x200A
    || n == 0x2028 || n == 0x2029 || n == 0x202F || n == 0x205F || n == 0x3000
  }

  function TrimStart(t: string): (u: string)
    ensures |u| <= |t|
  {
    if t != "" && IsWhiteSpace(t[0]) then TrimStart(t[1..]) else t
  }

  function TrimEnd(t: string): (u: string)
    ensures |u| <= |t|
  {
    if t != "" && IsWhiteSpace(t[|t| - 1]) then TrimEnd(t[..|t| - 1]) else t
  }

  function Trim(t: string): string {
    TrimEnd(TrimStart(t))
  }
}

/** Sequence algebra, one equation at a time. */
module Sequences {
  lemma Assoc<T>(x: seq<T>, y: seq<T>, z: seq<T>)
    ensures x + (y + z) == (x + y) + z
  {}

  lemma Regrouped<T>(w: seq<T>, x: seq<T>, y: seq<T>, z: seq<T>)
    ensures (w + x) + y + z == w + (x + y + z)
  {}

  lemma HeadTail<T>(s: seq<T>)
    requires s != []
    ensures [s[0]] + s[1..] == s
  {}

  lemma TailAppend<T>(a: seq<T>, b: seq<T>)
    requires a != []
    ensures (a + b)[0] == a[0] && (a + b)[1..] == a[1..] + b
  {}

  lemma DropAppend<T>(a: seq<T>, b: seq<T>)
    ensures (a + b)[|a|..] == b && (a + b)[..|a|] == a
  {}

  lemma DropDrop<T>(s: seq<T>, i: nat, j: nat)
    requires i + j <= |s|
    ensures s[i..][j..] == s[i + j..]
  {}

  lemma TakeNext<T>(s: seq<T>, i: nat)
    requires i < |s|
    ensures s[..i] + [s[i]] == s[..i + 1]
  {}

  lemma SplitAt<T>(s: seq<T>, i: nat)
    requires i <= |s|
    ensures s[..i] + s[i..] == s
  {}
}

/** Joining and splitting text. */
module Strings {
  /** `join`. */
  function Join(sep: string, parts: seq<string>): string {
    if parts == [] then "" else if |parts| == 1 then parts[0] else parts[0] + sep + Join(sep, parts[1..])
  }

  /** `split`. */
  function Split(sep: char, s: string): (parts: seq<string>)
    ensures parts != []
  {
    if s == "" then [""]
    else
      var rest := Split(sep, s[1..]);
      if s[0] == sep then [""] + rest else [[s[0]] + rest[0]] + rest[1..]
  }
}
