/** A file as a list of lines, and the same file as one text without line breaks. */
module LineText {

  function Text(lines: seq<string>): string {
    if lines == [] then "" else lines[0] + Text(lines[1..])
  }

  /** Where line l starts in the text. */
  function Base(lines: seq<string>, l: nat): nat
    requires l <= |lines|
  {
    |Text(lines[..l])|
  }

  lemma {:induction false} TextConcat(a: seq<string>, b: seq<string>)
    ensures Text(a + b) == Text(a) + Text(b)
  {
    if a == [] {
      assert a + b == b;
    } else {
      TextConcat(a[1..], b);
      assert (a + b)[1..] == a[1..] + b;
    }
  }

  lemma BaseStep(lines: seq<string>, l: nat)
    requires l < |lines|
    ensures Base(lines, l + 1) == Base(lines, l) + |lines[l]|
    ensures Base(lines, l + 1) <= |Text(lines)|
    ensures Text(lines)[Base(lines, l)..Base(lines, l + 1)] == lines[l]
  {
    assert lines[..l + 1] == lines[..l] + [lines[l]];
    TextConcat(lines[..l], [lines[l]]);
    assert Text([lines[l]]) == lines[l];
    assert lines == lines[..l + 1] + lines[l + 1..];
    TextConcat(lines[..l + 1], lines[l + 1..]);
  }

  lemma CharAt(lines: seq<string>, l: nat, p: nat)
    requires l < |lines| && p < |lines[l]|
    ensures Base(lines, l) + p < |Text(lines)|
    ensures Text(lines)[Base(lines, l) + p] == lines[l][p]
  {
    BaseStep(lines, l);
    assert Text(lines)[Base(lines, l)..Base(lines, l + 1)][p] == lines[l][p];
  }

  lemma BaseEnd(lines: seq<string>)
    ensures Base(lines, |lines|) == |Text(lines)|
  {
    assert lines[..|lines|] == lines;
  }

  lemma BaseMonotone(lines: seq<string>, l: nat, m: nat)
    requires l <= m <= |lines|
    ensures Base(lines, l) <= Base(lines, m)
  {
    assert lines[..m] == lines[..l] + lines[l..m];
    TextConcat(lines[..l], lines[l..m]);
  }

  /** A character of the text lies on one line only. */
  lemma PlaceUnique(lines: seq<string>, l: nat, p: nat, m: nat, q: nat)
    requires l < |lines| && p < |lines[l]| && m < |lines| && q < |lines[m]|
    requires Base(lines, l) + p == Base(lines, m) + q
    ensures l == m && p == q
  {
    BaseStep(lines, l);
    BaseStep(lines, m);
    if l < m {
      BaseMonotone(lines, l + 1, m);
    } else if m < l {
      BaseMonotone(lines, m + 1, l);
    }
  }
}
