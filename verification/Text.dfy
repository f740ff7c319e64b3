/** Strings as the runtime's own string methods see them. Offsets count UTF-16 code units;
    a `char` is a unit that is a character by itself, not half of a surrogate pair. */
module Text {

  /** The characters matched by the regular expression class `\s`, which are also the
      ones that trimming removes. */
  predicate IsSpace(c: char) {
    || c == ' ' || '\t' <= c <= '\r' || c == '\U{00A0}' || c == '\U{1680}'
    || '\U{2000}' <= c <= '\U{200A}' || c == '\U{2028}' || c == '\U{2029}'
    || c == '\U{202F}' || c == '\U{205F}' || c == '\U{3000}' || c == '\U{FEFF}'
  }

  /** Tab to carriage return, space, no-break space, the spaces of the punctuation block and
      beyond, both separators, and the byte-order mark; no letter, digit or punctuation. */
  lemma SpacesAre(c: char)
    ensures IsSpace(c) <==>
              || c as int in {9, 10, 11, 12, 13, 32, 160, 5760, 8232, 8233, 8239, 8287, 12288, 65279}
              || 8192 <= c as int <= 8202
    ensures c in "\t\n\r \U{00A0}" ==> IsSpace(c)
    ensures 'a' <= c <= 'z' || 'A' <= c <= 'Z' || '0' <= c <= '9' || c in ".,;:!?'\"()[]{}<>-_/*+=" ==> !IsSpace(c)
  {
    assert 'a' as int == 97 && 'z' as int == 122 && 'A' as int == 65 && 'Z' as int == 90;
    assert '0' as int == 48 && '9' as int == 57;
  }

  predicate AllSpace(s: string) { forall i | 0 <= i < |s| :: IsSpace(s[i]) }

  function TrimStart(s: string): string
    decreases |s|
  {
    if s != "" && IsSpace(s[0]) then TrimStart(s[1..]) else s
  }

  function TrimEnd(s: string): string
    decreases |s|
  {
    if s != "" && IsSpace(s[|s| - 1]) then TrimEnd(s[..|s| - 1]) else s
  }

  function Trim(s: string): string { TrimEnd(TrimStart(s)) }

  lemma {:induction false} TrimStartSpec(s: string) returns (l: string)
    ensures AllSpace(l) && s == l + TrimStart(s)
    ensures TrimStart(s) != "" ==> !IsSpace(TrimStart(s)[0])
    decreases |s|
  {
    if s != "" && IsSpace(s[0]) {
      var rest := TrimStartSpec(s[1..]);
      l := [s[0]] + rest;
    } else {
      l := "";
    }
  }

  lemma {:induction false} TrimEndSpec(s: string) returns (r: string)
    ensures AllSpace(r) && s == TrimEnd(s) + r
    ensures TrimEnd(s) != "" ==> !IsSpace(TrimEnd(s)[|TrimEnd(s)| - 1])
    decreases |s|
  {
    if s != "" && IsSpace(s[|s| - 1]) {
      var rest := TrimEndSpec(s[..|s| - 1]);
      r := rest + [s[|s| - 1]];
    } else {
      r := "";
    }
  }

  /** Trimming removes white space only, and all of it at both ends. */
  lemma TrimSpec(s: string) returns (l: string, r: string)
    ensures AllSpace(l) && AllSpace(r) && s == l + Trim(s) + r
    ensures Trim(s) != "" ==> !IsSpace(Trim(s)[0]) && !IsSpace(Trim(s)[|Trim(s)| - 1])
  {
    l := TrimStartSpec(s);
    r := TrimEndSpec(TrimStart(s));
  }

  function Least(x: nat, y: nat): (least: nat)
    ensures least <= x && least <= y && (least == x || least == y)
  {
    if x < y then x else y
  }

  /** `text.slice(start, end)` for offsets that are not negative. */
  function Slice(s: string, start: nat, end: nat): string {
    var from, to := Least(start, |s|), Least(end, |s|);
    if from <= to then s[from..to] else ""
  }

  /** It holds exactly the characters of `s` whose offsets lie in the range. */
  lemma SliceSpec(s: string, start: nat, end: nat)
    ensures var part := Slice(s, start, end); forall k | 0 <= k < |part| :: start + k < |s| && start + k < end && part[k] == s[start + k]
    ensures forall k | start <= k < end && k < |s| :: k - start < |Slice(s, start, end)| && s[k] == Slice(s, start, end)[k - start]
  {
  }

  function NormalChar(c: char): char { if IsSpace(c) then ' ' else c }

  /** Every white-space character mapped to a plain space. */
  function Normal(s: string): (n: string)
    ensures |n| == |s|
    ensures forall i | 0 <= i < |s| :: n[i] == NormalChar(s[i])
  {
    seq(|s|, i requires 0 <= i < |s| => NormalChar(s[i]))
  }

  /** The same character, or both white space. */
  predicate SameUpToSpace(a: char, b: char) { a == b || (IsSpace(a) && IsSpace(b)) }

  /** Texts that differ in the kind of white space at most. */
  predicate Agree(a: string, b: string) { |a| == |b| && forall i | 0 <= i < |a| :: SameUpToSpace(a[i], b[i]) }

  /** What mapping white space identifies. */
  lemma NormalIdentifies(a: string, b: string)
    ensures Normal(a) == Normal(b) <==> Agree(a, b)
  {
    if Normal(a) == Normal(b) {
      forall i | 0 <= i < |a| ensures SameUpToSpace(a[i], b[i]) {
        assert Normal(a)[i] == Normal(b)[i];
      }
    }
  }
}
