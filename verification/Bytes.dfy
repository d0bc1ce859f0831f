/**
  Byte strings, the only text the server knows, and the few library facts about them that the
  parser uses. A byte is a number below 256, as `char` is in the source once it is compared or
  classified.
*/
module Options {
  datatype Option<+T> = None | Some(value: T)
}

module ByteStrings {
  import opened Options

  newtype byte = b: int | 0 <= b < 256
  type Bytes = seq<byte>

  const CR: byte := 13
  const LF: byte := 10
  const CRLF: Bytes := [CR, LF]

  /** The bytes of an ASCII literal. */
  function Ascii(s: string): (r: Bytes)
    ensures |r| == |s|
    ensures forall i :: 0 <= i < |s| ==> r[i] as int == s[i] as int % 256
  {
    seq(|s|, i requires 0 <= i < |s| => (s[i] as int % 256) as byte)
  }

  /** Neither CR nor LF occurs: what a simple string or a simple error may contain. */
  predicate IsLine(s: Bytes) {
    CR !in s && LF !in s
  }

  predicate CrlfAt(s: Bytes, i: nat) {
    i + 1 < |s| && s[i] == CR && s[i + 1] == LF
  }

  /** `string_view::find("\r\n", i)`: the first CRLF at or after `i`. */
  function FindFrom(s: Bytes, i: nat): (r: Option<nat>)
    requires i <= |s|
    ensures r.Some? ==> i <= r.value && CrlfAt(s, r.value) && forall j: nat :: i <= j < r.value ==> !CrlfAt(s, j)
    ensures r.None? ==> forall j: nat :: i <= j ==> !CrlfAt(s, j)
    decreases |s| - i
  {
    if i == |s| then None
    else if CrlfAt(s, i) then Some(i)
    else FindFrom(s, i + 1)
  }

  function Find(s: Bytes): (r: Option<nat>)
    ensures r.Some? ==> CrlfAt(s, r.value) && forall j: nat :: j < r.value ==> !CrlfAt(s, j)
    ensures r.None? ==> forall j: nat :: !CrlfAt(s, j)
  {
    FindFrom(s, 0)
  }

  /** Whether and where the first CRLF lies is settled by the bytes up to its end. */
  lemma FindLocal(s: Bytes, t: Bytes)
    requires Find(s).Some?
    requires var u := Find(s).value + 2; u <= |t| && s[..u] == t[..u]
    ensures Find(t) == Find(s)
  {
    var p := Find(s).value;
    assert s[p] == s[..p + 2][p] && s[p + 1] == s[..p + 2][p + 1];
    assert CrlfAt(t, p);
    forall j: nat | j < p
      ensures !CrlfAt(t, j)
    {
      assert s[j] == s[..p + 2][j] && s[j + 1] == s[..p + 2][j + 1];
      assert !CrlfAt(s, j);
    }
  }

  /** No CRLF lies inside, though the last byte may be a CR. */
  ghost predicate NoCrlf(s: Bytes) {
    forall j: nat :: !CrlfAt(s, j)
  }

  /** A text without CRLF is found whole when CRLF follows it. */
  lemma FindAfter(text: Bytes, rest: Bytes)
    requires NoCrlf(text)
    ensures Find(text + CRLF + rest) == Some(|text|)
  {
    var s := text + CRLF + rest;
    assert CrlfAt(s, |text|);
    forall j: nat | j < |text|
      ensures !CrlfAt(s, j)
    {
      assert s[j] == text[j] && !CrlfAt(text, j);
    }
  }

  lemma FindAfterLine(line: Bytes, rest: Bytes)
    requires IsLine(line)
    ensures Find(line + CRLF + rest) == Some(|line|)
  {
    FindAfter(line, rest);
  }
}
