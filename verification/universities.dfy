/** The university-code check: a typed code is lower-cased and stripped of
    spaces, then looked up in the list of simplified names; the display name
    sits at the same position of the parallel list of full names. */
module Universities {

  /** `str.lower` on one character, for the ASCII letters. */
  function Lower(c: char): char
  {
    if 'A' <= c <= 'Z' then (c as int + ('a' as int - 'A' as int)) as char else c
  }

  /** `code.lower().replace(" ", "")`. */
  function Normalize(code: string): (r: string)
    ensures |r| <= |code|
    ensures forall i :: 0 <= i < |r| ==> r[i] != ' ' && !('A' <= r[i] <= 'Z')
  {
    if code == [] then []
    else (if code[0] == ' ' then [] else [Lower(code[0])]) + Normalize(code[1..])
  }

  /** Normalizing a concatenation normalizes each part. */
  lemma {:induction false} NormalizeConcat(a: string, b: string)
    ensures Normalize(a + b) == Normalize(a) + Normalize(b)
  {
    if a == [] {
      assert a + b == b;
    } else {
      var c := a + b;
      assert c[0] == a[0] && c[1..] == a[1..] + b;
      NormalizeConcat(a[1..], b);
      var head := if a[0] == ' ' then [] else [Lower(a[0])];
      assert Normalize(c) == head + Normalize(c[1..]);
      assert Normalize(a) == head + Normalize(a[1..]);
    }
  }

  /** One character: a space is dropped, anything else is lower-cased. With
      `NormalizeConcat` this fixes the normalization of every code. */
  lemma NormalizeChar(c: char)
    ensures Normalize([c]) == if c == ' ' then [] else [Lower(c)]
  {
    assert [c][1..] == [];
  }

  /** Exactly the spaces are dropped. */
  lemma {:induction false} NormalizeLength(code: string)
    ensures |Normalize(code)| == |code| - multiset(code)[' ']
  {
    if code != [] {
      NormalizeLength(code[1..]);
      assert code == [code[0]] + code[1..];
      assert multiset(code) == multiset([code[0]]) + multiset(code[1..]);
    }
  }

  /** A code without spaces keeps its length and is lower-cased letter by letter. */
  lemma {:induction false} NormalizeNoSpaces(code: string)
    requires ' ' !in code
    ensures |Normalize(code)| == |code|
    ensures forall i :: 0 <= i < |code| ==> Normalize(code)[i] == Lower(code[i])
  {
    if code != [] {
      assert code[0] in code;
      assert forall x :: x in code[1..] ==> x in code;
      NormalizeNoSpaces(code[1..]);
      assert Normalize(code) == [Lower(code[0])] + Normalize(code[1..]);
    }
  }

  /** Spaces anywhere in the typed code make no difference. */
  lemma SpacesIgnored(a: string, b: string)
    ensures Normalize(a + " " + b) == Normalize(a + b)
  {
    assert a + " " + b == (a + " ") + b;
    NormalizeConcat(a + " ", b);
    NormalizeConcat(a, " ");
    NormalizeConcat(a, b);
    assert Normalize(" ") == [];
    assert Normalize(a + " ") == Normalize(a);
  }

  /** Upper- and lower-case letters give the same code. */
  lemma {:induction false} CaseIgnored(a: string, b: string)
    requires |a| == |b|
    requires forall i :: 0 <= i < |a| ==> Lower(a[i]) == Lower(b[i])
    ensures Normalize(a) == Normalize(b)
  {
    if a != [] {
      assert a[0] == ' ' <==> b[0] == ' ';
      CaseIgnored(a[1..], b[1..]);
    }
  }

  /** A normalized code is its own normalization. */
  lemma {:induction false} NormalizeIdempotent(code: string)
    ensures Normalize(Normalize(code)) == Normalize(code)
  {
    if code != [] {
      NormalizeIdempotent(code[1..]);
      var head := if code[0] == ' ' then [] else [Lower(code[0])];
      NormalizeConcat(head, Normalize(code[1..]));
      if head != [] {
        assert head[1..] == [];
      }
    }
  }

  /** `list.index`: the first position holding `x`. */
  function IndexOf(xs: seq<string>, x: string): (i: nat)
    requires x in xs
    ensures i < |xs| && xs[i] == x && x !in xs[..i]
  {
    if xs[0] == x then 0
    else
      var i := 1 + IndexOf(xs[1..], x);
      assert xs[..i] == [xs[0]] + xs[1..][..i - 1];
      i
  }

  /** The answer of `check_code`: whether the code is known, and its display name. */
  datatype CodeCheck = CodeCheck(valid: bool, name: string)

  /** `check_code`, with the two university lists as parameters. */
  function CheckCode(code: string, names: seq<string>, simplified: seq<string>): (r: CodeCheck)
    requires |simplified| <= |names|
    ensures r.valid <==> Normalize(code) in simplified
    ensures r.valid ==> exists i :: 0 <= i < |simplified| && simplified[i] == Normalize(code) &&
                                    Normalize(code) !in simplified[..i] && r.name == names[i]
    ensures !r.valid ==> r.name == ""
  {
    var key := Normalize(code);
    if key in simplified then CodeCheck(true, names[IndexOf(simplified, key)]) else CodeCheck(false, "")
  }
}
