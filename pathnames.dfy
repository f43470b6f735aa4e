/** Names of directory entries: the split into stem and last suffix that
    pathlib performs (`PurePath.stem`, `PurePath.suffix`), the decimal
    rendering of the collision counter, and the `<stem>_<k><suffix>` names
    tried when a destination name is already taken. */
module PathNames {

  /** Position of the last '.' in `name`, or -1 when it has none (`str.rfind('.')`). */
  function LastDot(name: string): (i: int)
    ensures -1 <= i < |name|
    ensures i >= 0 ==> name[i] == '.'
    ensures forall j :: i < j < |name| ==> name[j] != '.'
  {
    if |name| == 0 then -1
    else if name[|name| - 1] == '.' then |name| - 1
    else LastDot(name[..|name| - 1])
  }

  /** pathlib only counts the last dot as the start of a suffix when it is
      neither the first character (".bashrc") nor the last one ("notes."). */
  predicate HasSuffix(name: string) {
    0 < LastDot(name) < |name| - 1
  }

  /** `PurePath.suffix`: the last dot and what follows it, or "". */
  function Suffix(name: string): string {
    if HasSuffix(name) then name[LastDot(name)..] else ""
  }

  /** `PurePath.stem`: the name without its suffix. */
  function Stem(name: string): string {
    if HasSuffix(name) then name[..LastDot(name)] else name
  }

  /** A well-formed last suffix: a dot followed by at least one character and no further dot. */
  predicate IsExtension(ext: string) {
    |ext| >= 2 && ext[0] == '.' && forall j :: 1 <= j < |ext| ==> ext[j] != '.'
  }

  /** Stem and suffix split a name without losing or adding a character,
      and a suffix, when present, is a well-formed extension. */
  lemma StemSuffixSplit(name: string)
    ensures Stem(name) + Suffix(name) == name
    ensures Suffix(name) == "" || IsExtension(Suffix(name))
    ensures Suffix(name) == "" <==> !HasSuffix(name)
  {
  }

  /** Joining a non-empty stem and an extension gives back exactly that
      stem and that extension. */
  lemma {:induction false} SuffixOfJoin(stem: string, ext: string)
    requires |stem| > 0 && IsExtension(ext)
    ensures HasSuffix(stem + ext)
    ensures Suffix(stem + ext) == ext && Stem(stem + ext) == stem
  {
    var name := stem + ext;
    var i := LastDot(name);
    assert name[|stem|] == '.';
    assert i >= |stem|;
    assert name[i..] == ext;
    assert name[..i] == stem;
  }

  predicate IsDigits(s: string) {
    forall i :: 0 <= i < |s| ==> '0' <= s[i] <= '9'
  }

  function DigitChar(d: nat): char
    requires d < 10
  {
    ('0' as int + d) as char
  }

  /** `str(n)` for a natural number: decimal digits, no leading zero. */
  function Decimal(n: nat): (s: string)
    ensures |s| >= 1 && IsDigits(s)
    ensures |s| > 1 ==> s[0] != '0'
  {
    if n < 10 then [DigitChar(n)] else Decimal(n / 10) + [DigitChar(n % 10)]
  }

  /** The number a string of decimal digits denotes. */
  function DecimalValue(s: string): nat
    requires IsDigits(s)
  {
    if s == [] then 0 else DecimalValue(s[..|s| - 1]) * 10 + (s[|s| - 1] as int - '0' as int)
  }

  lemma {:induction false} DecimalRoundTrip(n: nat)
    ensures DecimalValue(Decimal(n)) == n
  {
    if n >= 10 {
      DecimalRoundTrip(n / 10);
      var s := Decimal(n);
      assert s[..|s| - 1] == Decimal(n / 10);
    }
  }

  lemma DecimalInjective(j: nat, k: nat)
    requires Decimal(j) == Decimal(k)
    ensures j == k
  {
    DecimalRoundTrip(j);
    DecimalRoundTrip(k);
  }

  /** The name tried for the k-th collision on `name`: `f"{stem}_{k}{suffix}"`. */
  function Candidate(name: string, k: nat): string {
    Stem(name) + "_" + Decimal(k) + Suffix(name)
  }

  /** Different counters give different names, so the search for a free
      name never tries the same name twice. */
  lemma CandidateInjective(name: string, j: nat, k: nat)
    requires Candidate(name, j) == Candidate(name, k)
    ensures j == k
  {
    var st := Stem(name);
    var a, b := Decimal(j), Decimal(k);
    assert |a| == |b|;
    assert Candidate(name, j)[|st| + 1 .. |st| + 1 + |a|] == a;
    assert Candidate(name, k)[|st| + 1 .. |st| + 1 + |b|] == b;
    DecimalInjective(j, k);
  }

  /** The counter goes in front of the last suffix: a renamed file keeps its
      extension, and its stem is the old stem followed by `_<k>`. (A name
      without a suffix is covered by `CandidateWithoutSuffix`.) */
  lemma CandidateKeepsSuffix(name: string, k: nat)
    requires HasSuffix(name)
    ensures Suffix(Candidate(name, k)) == Suffix(name)
    ensures Stem(Candidate(name, k)) == Stem(name) + "_" + Decimal(k)
  {
    StemSuffixSplit(name);
    var st := Stem(name) + "_" + Decimal(k);
    assert Candidate(name, k) == st + Suffix(name);
    SuffixOfJoin(st, Suffix(name));
  }

  /** The last dot of a name is not moved by appending dot-free text. */
  lemma LastDotAppend(a: string, b: string)
    requires forall j :: 0 <= j < |b| ==> b[j] != '.'
    ensures LastDot(a + b) == LastDot(a)
  {
    var i, j := LastDot(a + b), LastDot(a);
    if i >= 0 {
      assert (a + b)[i] == '.';
      assert i < |a| && a[i] == '.';
    }
    if j >= 0 {
      assert (a + b)[j] == a[j];
    }
  }

  /** Renaming a name without a suffix appends `_<k>`. The result has no
      suffix either, except for a name whose last dot is its last character
      and not its first ("notes."), which gains the suffix `._<k>`. */
  lemma CandidateWithoutSuffix(name: string, k: nat)
    requires !HasSuffix(name)
    ensures Candidate(name, k) == name + "_" + Decimal(k)
    ensures HasSuffix(Candidate(name, k)) <==> 0 < LastDot(name) == |name| - 1
    ensures HasSuffix(Candidate(name, k)) ==> Suffix(Candidate(name, k)) == "._" + Decimal(k)
  {
    var tail := "_" + Decimal(k);
    assert Candidate(name, k) == name + tail;
    assert forall j :: 0 <= j < |tail| ==> tail[j] != '.';
    LastDotAppend(name, tail);
    if 0 < LastDot(name) == |name| - 1 {
      assert (name + tail)[LastDot(name)..] == "." + tail;
    }
  }
}
