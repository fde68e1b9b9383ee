/** The lines of a file as one text, and the places of its characters. */
module LineTexts {
  ghost function Flat(lines: seq<string>): string {
    if lines == [] then [] else Flat(lines[..|lines| - 1]) + lines[|lines| - 1]
  }

  /** Where line k begins in the text. */
  ghost function Offset(lines: seq<string>, k: nat): nat
    requires k <= |lines|
  {
    |Flat(lines[..k])|
  }

  /** Position p of line k, in the text. */
  ghost function At(lines: seq<string>, k: nat, p: nat): nat
    requires k < |lines|
  {
    Offset(lines, k) + p
  }

  lemma {:induction false} PrefixOfFlat(lines: seq<string>, k: nat)
    requires k <= |lines|
    ensures Offset(lines, k) <= |Flat(lines)| && Flat(lines[..k]) == Flat(lines)[..Offset(lines, k)]
    decreases |lines|
  {
    if k == |lines| {
      assert lines[..k] == lines;
    } else {
      var init := lines[..|lines| - 1];
      PrefixOfFlat(init, k);
      assert init[..k] == lines[..k];
    }
  }

  /** A line is a slice of the text. */
  lemma LineAt(lines: seq<string>, k: nat)
    requires k < |lines|
    ensures Offset(lines, k + 1) == Offset(lines, k) + |lines[k]| <= |Flat(lines)|
    ensures Flat(lines)[Offset(lines, k)..Offset(lines, k + 1)] == lines[k]
  {
    PrefixOfFlat(lines, k);
    PrefixOfFlat(lines, k + 1);
    assert lines[..k + 1][..k] == lines[..k];
  }

  lemma {:induction false} LaterLine(lines: seq<string>, k: nat, l: nat)
    requires k < l <= |lines|
    ensures Offset(lines, k + 1) <= Offset(lines, l)
    decreases l
  {
    if l > k + 1 {
      LaterLine(lines, k, l - 1);
      LineAt(lines, l - 1);
    }
  }

  /** A position in the text is in one line only. */
  lemma PositionIsUnique(lines: seq<string>, k: nat, p: nat, l: nat, q: nat)
    requires k < |lines| && l < |lines| && p < |lines[k]| && q < |lines[l]|
    requires Offset(lines, k) + p == Offset(lines, l) + q
    ensures k == l && p == q
  {
    LineAt(lines, k);
    LineAt(lines, l);
    if k < l {
      LaterLine(lines, k, l);
    } else if l < k {
      LaterLine(lines, l, k);
    }
  }

  /** The rest of the line, as a slice of the text. */
  lemma FromHere(lines: seq<string>, k: nat, p: nat)
    requires k < |lines| && p < |lines[k]|
    ensures var text, a := Flat(lines), At(lines, k, p);
      && a < Offset(lines, k + 1) <= |text| && text[a] == lines[k][p]
      && text[a..Offset(lines, k + 1)] == lines[k][p..]
  {
    hide Flat, Offset;
    LineAt(lines, k);
    var text, b, c := Flat(lines), Offset(lines, k), Offset(lines, k + 1);
    assert text[b..c][p] == text[b + p];
    SliceOfSlice(text, b, c, p, c - b);
  }

  lemma UpToHere(lines: seq<string>, k: nat, p: nat)
    requires k < |lines| && p < |lines[k]|
    ensures var text, b := Flat(lines), At(lines, k, p + 1);
      && Offset(lines, k) < b <= |text| && text[b - 1] == lines[k][p]
      && text[Offset(lines, k)..b] == lines[k][..p + 1]
  {
    hide Flat, Offset;
    LineAt(lines, k);
    var text, b, c := Flat(lines), Offset(lines, k), Offset(lines, k + 1);
    assert text[b..c][p] == text[b + p];
    SliceOfSlice(text, b, c, 0, p + 1);
  }

  lemma SliceOfSlice<T>(s: seq<T>, a: nat, c: nat, i: nat, j: nat)
    requires a <= c <= |s| && i <= j <= c - a
    ensures s[a..c][i..j] == s[a + i..a + j]
  {
    var t, u := s[a..c][i..j], s[a + i..a + j];
    forall k | 0 <= k < j - i
      ensures t[k] == u[k]
    {
      assert s[a..c][i + k] == s[a + (i + k)];
    }
  }
}
