/** The handful of JavaScript string primitives the application relies on,
    stated over `seq<char>`. */
module Strings {

  /** The characters in JavaScript's `\s` class; `String.prototype.trim`
      removes exactly the same set (WhiteSpace and LineTerminator). */
  predicate IsSpace(c: char) {
    || c == '\t' || c == '\n' || c == '\U{B}' || c == '\U{C}' || c == '\r'
    || c == ' ' || c == '\U{A0}' || c == '\U{1680}'
    || ('\U{2000}' <= c <= '\U{200A}')
    || c == '\U{2028}' || c == '\U{2029}' || c == '\U{202F}' || c == '\U{205F}'
    || c == '\U{3000}' || c == '\U{FEFF}'
  }

  /** Nothing but white space: the condition `!x.trim()` of the source. */
  predicate AllSpace(s: string) {
    forall i :: 0 <= i < |s| ==> IsSpace(s[i])
  }

  predicate NoSpace(s: string) {
    forall i :: 0 <= i < |s| ==> !IsSpace(s[i])
  }

  /** Number of leading white-space characters. */
  function LeadingSpaces(s: string): (a: nat)
    ensures a <= |s|
    ensures AllSpace(s[..a])
    ensures a < |s| ==> !IsSpace(s[a])
  {
    if |s| == 0 || !IsSpace(s[0]) then 0
    else
      var a' := LeadingSpaces(s[1..]);
      assert s[..1 + a'] == [s[0]] + s[1..][..a'];
      1 + a'
  }

  /** Length of `s` once its trailing white space is dropped. */
  function WithoutTrailingSpaces(s: string): (b: nat)
    ensures b <= |s|
    ensures AllSpace(s[b..])
    ensures b > 0 ==> !IsSpace(s[b - 1])
  {
    if |s| == 0 || !IsSpace(s[|s| - 1]) then |s|
    else
      var b := WithoutTrailingSpaces(s[..|s| - 1]);
      assert s[b..] == s[..|s| - 1][b..] + [s[|s| - 1]];
      b
  }

  /** Where the text of `s` begins and ends once the white space at both
      ends is set aside: everything outside is white space, and the kept
      slice, when not empty, starts and ends with a non-space. */
  function TrimBounds(s: string): (r: (nat, nat))
    ensures r.0 <= r.1 <= |s|
    ensures AllSpace(s[..r.0]) && AllSpace(s[r.1..])
    ensures r.0 < r.1 ==> !IsSpace(s[r.0]) && !IsSpace(s[r.1 - 1])
    ensures r.0 == r.1 ==> AllSpace(s)
  {
    var a := LeadingSpaces(s);
    var b := a + WithoutTrailingSpaces(s[a..]);
    assert s[a..][b - a..] == s[b..];
    assert a == |s| ==> s == s[..a];
    (a, b)
  }

  /** `s[a..b]` is `s` with white space only before `a` and after `b`. */
  predicate TrimmedAt(s: string, a: nat, b: nat) {
    a <= b <= |s| && AllSpace(s[..a]) && AllSpace(s[b..])
  }

  /** `String.prototype.trim`: the input with only white space removed, at
      both ends, and as much of it as there is. */
  function Trim(s: string): (r: string)
    ensures exists a: nat, b: nat :: TrimmedAt(s, a, b) && r == s[a..b]
    ensures |r| > 0 ==> !IsSpace(r[0]) && !IsSpace(r[|r| - 1])
    ensures r == [] <==> AllSpace(s)
    ensures |r| <= |s|
    ensures forall c :: c in r ==> c in s
  {
    var (a, b) := TrimBounds(s);
    assert TrimmedAt(s, a, b);
    s[a..b]
  }

  /** The ASCII and Latin-1 capital letters (`×` is not a letter): their
      small letters lie 32 code points further on. */
  predicate IsCapital(c: char) {
    'A' <= c <= 'Z' || ('\U{C0}' <= c <= '\U{DE}' && c != '\U{D7}')
  }

  /** `İ`, whose lower case is two characters: `i` and a combining dot. */
  const DottedCapitalI: char := '\U{130}'

  const CombiningDot: char := '\U{307}'

  /** The capitals outside Latin-1 whose small letter lies inside it:
      `Ÿ`, capital sharp s, the Kelvin sign and the Angstrom sign. */
  predicate IsOtherCapital(c: char) {
    c == '\U{178}' || c == '\U{1E9E}' || c == '\U{212A}' || c == '\U{212B}'
  }

  /** The characters `toLowerCase` changes into ASCII or Latin-1 text. */
  predicate IsUpper(c: char) {
    IsCapital(c) || IsOtherCapital(c) || c == DottedCapitalI
  }

  /** `toLowerCase` on one character, as far as its result lies in ASCII or
      Latin-1 (for `İ`, the `i` that starts its two-character lower case).
      Every other character stays. */
  function LowerChar(c: char): (r: char)
    ensures !IsUpper(r)
    ensures !IsUpper(c) ==> r == c
    ensures IsCapital(c) ==> r as int == c as int + 32
    ensures c == DottedCapitalI ==> r == 'i'
    ensures c == '\U{178}' ==> r == '\U{FF}'
    ensures c == '\U{1E9E}' ==> r == '\U{DF}'
    ensures c == '\U{212A}' ==> r == 'k'
    ensures c == '\U{212B}' ==> r == '\U{E5}'
  {
    if IsCapital(c) then (c as int + 32) as char
    else if c == DottedCapitalI then 'i'
    else if c == '\U{178}' then '\U{FF}'
    else if c == '\U{1E9E}' then '\U{DF}'
    else if c == '\U{212A}' then 'k'
    else if c == '\U{212B}' then '\U{E5}'
    else c
  }

  /** The lower case of one character: one character, except for `İ`. */
  function LowerChars(c: char): (r: string)
    ensures |r| == (if c == DottedCapitalI then 2 else 1) && r[0] == LowerChar(c)
    ensures c == DottedCapitalI ==> r[1] == CombiningDot
  {
    if c == DottedCapitalI then ['i', CombiningDot] else [LowerChar(c)]
  }

  /** `String.prototype.toLowerCase`: each character replaced by its lower
      case, in order. */
  function ToLower(s: string): (r: string)
    ensures forall i :: 0 <= i < |r| ==> !IsUpper(r[i])
    ensures |r| >= |s|
  {
    if |s| == 0 then "" else LowerChars(s[0]) + ToLower(s[1..])
  }

  /** Lower-casing works character by character: it distributes over
      concatenation, and a single character becomes its lower case. */
  lemma {:induction false} ToLowerAppend(a: string, b: string)
    ensures ToLower(a + b) == ToLower(a) + ToLower(b)
    ensures |a| == 1 ==> ToLower(a) == LowerChars(a[0])
    decreases |a|
  {
    if |a| > 0 {
      assert (a + b)[0] == a[0];
      assert (a + b)[1..] == a[1..] + b;
      ToLowerAppend(a[1..], b);
      if |a| == 1 {
        assert a[1..] == [];
      }
    } else {
      assert a + b == b;
    }
  }

  /** Without `İ`, lower-casing keeps the length and maps each position on
      its own: capitals to their small letters, everything else unchanged. */
  lemma {:induction false} ToLowerInPlace(s: string)
    requires forall i :: 0 <= i < |s| ==> s[i] != DottedCapitalI
    ensures |ToLower(s)| == |s|
    ensures forall i :: 0 <= i < |s| ==> ToLower(s)[i] == LowerChar(s[i])
    decreases |s|
  {
    if |s| > 0 {
      ToLowerInPlace(s[1..]);
      var r := ToLower(s);
      assert r == [LowerChar(s[0])] + ToLower(s[1..]);
      forall i | 0 <= i < |s|
        ensures r[i] == LowerChar(s[i])
      {
        if i > 0 {
          assert s[1..][i - 1] == s[i];
        }
      }
    }
  }

  /** Text without upper-case characters is its own lower case. */
  lemma {:induction false} ToLowerKeepsLower(s: string)
    requires forall i :: 0 <= i < |s| ==> !IsUpper(s[i])
    ensures ToLower(s) == s
    decreases |s|
  {
    if |s| > 0 {
      ToLowerKeepsLower(s[1..]);
      assert s == [s[0]] + s[1..];
    }
  }

  /** Lower-casing twice is lower-casing once. */
  lemma ToLowerIdempotent(s: string)
    ensures ToLower(ToLower(s)) == ToLower(s)
  {
    ToLowerKeepsLower(ToLower(s));
  }

  /** The case the source meets with a Turkish speaker label: `ROSSİ`
      lower-cases to `rossi` followed by a combining dot, which contains
      `rossi`. */
  lemma DottedIKeepsName()
    ensures ToLower("ROSS\U{130}") == "rossi\U{307}"
    ensures Contains(ToLower("ROSS\U{130}"), "rossi")
  {
    var s := "ROSS\U{130}";
    assert s == "R" + ("O" + ("S" + ("S" + "\U{130}")));
    ToLowerAppend("R", "O" + ("S" + ("S" + "\U{130}")));
    ToLowerAppend("O", "S" + ("S" + "\U{130}"));
    ToLowerAppend("S", "S" + "\U{130}");
    ToLowerAppend("S", "\U{130}");
    ToLowerAppend("\U{130}", "");
    assert "\U{130}" + "" == "\U{130}";
    var r := ToLower(s);
    assert r == "rossi\U{307}";
    assert OccursAt(r, "rossi", 0) by {
      assert r[0..5] == "rossi";
    }
  }

  predicate StartsWith(s: string, prefix: string) {
    |prefix| <= |s| && s[..|prefix|] == prefix
  }

  predicate OccursAt(s: string, sub: string, i: nat) {
    i + |sub| <= |s| && s[i..i + |sub|] == sub
  }

  /** `String.prototype.includes`. */
  function Contains(s: string, sub: string): (b: bool)
    ensures b <==> exists i: nat :: OccursAt(s, sub, i)
    decreases |s|
  {
    if |sub| > |s| then
      assert forall i: nat :: !OccursAt(s, sub, i);
      false
    else if s[..|sub|] == sub then
      assert OccursAt(s, sub, 0);
      true
    else
      var b := Contains(s[1..], sub);
      assert forall i: nat :: OccursAt(s[1..], sub, i) <==> OccursAt(s, sub, i + 1);
      assert forall i: nat :: OccursAt(s, sub, i) ==> i > 0;
      assert forall i: nat :: OccursAt(s, sub, i) ==> OccursAt(s[1..], sub, i - 1);
      b
  }

  /** `String.prototype.length`: UTF-16 code units, so a character beyond
      the Basic Multilingual Plane counts twice. */
  function Utf16Length(s: string): (n: nat)
    ensures |s| <= n <= 2 * |s|
  {
    if |s| == 0 then 0
    else (if s[0] as int > 0xFFFF then 2 else 1) + Utf16Length(s[1..])
  }

  /** One unit per character of the Basic Multilingual Plane, two per
      character beyond it. */
  lemma {:induction false} Utf16LengthCount(s: string)
    ensures |s| == 1 ==> Utf16Length(s) == if s[0] as int > 0xFFFF then 2 else 1
    ensures (forall i :: 0 <= i < |s| ==> s[i] as int <= 0xFFFF) ==> Utf16Length(s) == |s|
    ensures (forall i :: 0 <= i < |s| ==> s[i] as int > 0xFFFF) ==> Utf16Length(s) == 2 * |s|
    decreases |s|
  {
    if |s| > 0 {
      Utf16LengthCount(s[1..]);
      assert forall i :: 1 <= i < |s| ==> s[1..][i - 1] == s[i];
    }
  }

  lemma {:induction false} Utf16LengthAppend(a: string, b: string)
    ensures Utf16Length(a + b) == Utf16Length(a) + Utf16Length(b)
    decreases |a|
  {
    if |a| > 0 {
      assert (a + b)[1..] == a[1..] + b;
      Utf16LengthAppend(a[1..], b);
    } else {
      assert a + b == b;
    }
  }

  /** `Array.prototype.join(sep)`. */
  function Join(parts: seq<string>, sep: string): string
  {
    if |parts| == 0 then ""
    else if |parts| == 1 then parts[0]
    else parts[0] + sep + Join(parts[1..], sep)
  }

  lemma {:induction false} JoinAppend(parts: seq<string>, sep: string, last: string)
    requires |parts| > 0
    ensures Join(parts + [last], sep) == Join(parts, sep) + sep + last
    decreases |parts|
  {
    if |parts| > 1 {
      assert (parts + [last])[1..] == parts[1..] + [last];
      JoinAppend(parts[1..], sep, last);
    } else {
      assert parts + [last] == [parts[0], last];
    }
  }

  /** Where the `k`-th part begins inside `Join(parts, sep)`. */
  function Offset(parts: seq<string>, sep: string, k: nat): nat
    requires k < |parts|
  {
    if k == 0 then 0 else |parts[0]| + |sep| + Offset(parts[1..], sep, k - 1)
  }

  /** Joining lays the parts out one after another, in order, with `sep`
      between each neighbouring pair and nowhere else. */
  lemma {:induction false} JoinLayout(parts: seq<string>, sep: string, k: nat)
    requires k < |parts|
    ensures var j, o := Join(parts, sep), Offset(parts, sep, k);
      && o + |parts[k]| <= |j|
      && j[o..o + |parts[k]|] == parts[k]
      && (k + 1 < |parts| ==> o + |parts[k]| + |sep| <= |j| && j[o + |parts[k]|..o + |parts[k]| + |sep|] == sep)
      && (k + 1 == |parts| ==> o + |parts[k]| == |j|)
    decreases k
  {
    if k > 0 {
      JoinLayout(parts[1..], sep, k - 1);
      var tail := Join(parts[1..], sep);
      var d := |parts[0]| + |sep|;
      assert Join(parts, sep) == parts[0] + sep + tail;
      assert Join(parts, sep)[d..] == tail;
    } else if |parts| > 1 {
      assert Join(parts, sep) == parts[0] + sep + Join(parts[1..], sep);
    }
  }
}
