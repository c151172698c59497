/** NVRAM list texts: separators, the entities the router may store them as, and reading back what was printed. */
module Nvram {

  /** The text begins with the entity `&#60` (for d = '0') or `&#62` (for d = '2'). */
  predicate IsEntity(s: string, d: char) {
    |s| >= 4 && s[0] == '&' && s[1] == '#' && s[2] == '6' && s[3] == d
  }

  function Entity(d: char): string {
    ['&', '#', '6', d]
  }

  /** Every entity replaced by the character, leftmost first and without rescanning. */
  function ReplaceEntity(s: string, d: char, c: char): string {
    if s == "" then ""
    else if IsEntity(s, d) then [c] + ReplaceEntity(s[4..], d, c)
    else [s[0]] + ReplaceEntity(s[1..], d, c)
  }

  /** Both entities at once. */
  function Decode(s: string): string {
    if s == "" then ""
    else if IsEntity(s, '0') then "<" + Decode(s[4..])
    else if IsEntity(s, '2') then ">" + Decode(s[4..])
    else [s[0]] + Decode(s[1..])
  }

  /** A first character that is no separator was there before replacing. */
  lemma ReplaceKeepsHead(s: string, d: char, c: char)
    requires c == '<' || c == '>'
    requires ReplaceEntity(s, d, c) != "" && ReplaceEntity(s, d, c)[0] != c
    ensures s != "" && s[0] == ReplaceEntity(s, d, c)[0] && ReplaceEntity(s, d, c)[1..] == ReplaceEntity(s[1..], d, c)
  {
  }

  /** Replacing one entity does not make the other one appear. */
  lemma ReplaceMakesNoEntity(s: string, d: char, c: char, other: char)
    requires (c == '<' || c == '>') && other in "02"
    requires s != "" && !IsEntity(s, d) && IsEntity([s[0]] + ReplaceEntity(s[1..], d, c), other)
    ensures IsEntity(s, other)
  {
    var r1 := ReplaceEntity(s[1..], d, c);
    assert ([s[0]] + r1)[1] == r1[0] && ([s[0]] + r1)[2] == r1[1] && ([s[0]] + r1)[3] == r1[2];
    ReplaceKeepsHead(s[1..], d, c);
    assert s[1..][1..] == s[2..];
    ReplaceKeepsHead(s[2..], d, c);
    assert s[2..][1..] == s[3..];
    ReplaceKeepsHead(s[3..], d, c);
  }

  lemma ReplaceSkips(s: string, d: char, c: char, other: char)
    requires other != d && other != '&' && IsEntity(s, other)
    ensures ReplaceEntity(s, d, c) == Entity(other) + ReplaceEntity(s[4..], d, c)
  {
    var tail := ReplaceEntity(s[4..], d, c);
    assert s[1..][1..] == s[2..] && s[2..][1..] == s[3..] && s[3..][1..] == s[4..];
    assert ReplaceEntity(s[3..], d, c) == [other] + tail;
    assert ReplaceEntity(s[2..], d, c) == ['6'] + ([other] + tail);
    assert ReplaceEntity(s[1..], d, c) == ['#'] + (['6'] + ([other] + tail));
    assert ReplaceEntity(s, d, c) == ['&'] + (['#'] + (['6'] + ([other] + tail)));
  }

  /** The two replacements are the one-pass decoding, `&#60` first as for DNS Director rules. */
  lemma {:induction false} DecodeLtFirst(s: string)
    ensures ReplaceEntity(ReplaceEntity(s, '0', '<'), '2', '>') == Decode(s)
  {
    if s != "" {
      if IsEntity(s, '0') {
        DecodeLtFirst(s[4..]);
        assert (['<'] + ReplaceEntity(s[4..], '0', '<'))[1..] == ReplaceEntity(s[4..], '0', '<');
      } else if IsEntity(s, '2') {
        DecodeLtFirst(s[4..]);
        ReplaceSkips(s, '0', '<', '2');
        var rest := ReplaceEntity(s[4..], '0', '<');
        assert (Entity('2') + rest)[4..] == rest;
      } else {
        DecodeLtFirst(s[1..]);
        var rest := ReplaceEntity(s[1..], '0', '<');
        assert ([s[0]] + rest)[1..] == rest;
        if IsEntity([s[0]] + rest, '2') { ReplaceMakesNoEntity(s, '0', '<', '2'); }
      }
    }
  }

  /** ... and `&#62` first as for the block list. */
  lemma {:induction false} DecodeGtFirst(s: string)
    ensures ReplaceEntity(ReplaceEntity(s, '2', '>'), '0', '<') == Decode(s)
  {
    if s != "" {
      if IsEntity(s, '2') {
        DecodeGtFirst(s[4..]);
        assert (['>'] + ReplaceEntity(s[4..], '2', '>'))[1..] == ReplaceEntity(s[4..], '2', '>');
      } else if IsEntity(s, '0') {
        DecodeGtFirst(s[4..]);
        ReplaceSkips(s, '2', '>', '0');
        var rest := ReplaceEntity(s[4..], '2', '>');
        assert (Entity('0') + rest)[4..] == rest;
      } else {
        DecodeGtFirst(s[1..]);
        var rest := ReplaceEntity(s[1..], '2', '>');
        assert ([s[0]] + rest)[1..] == rest;
        if IsEntity([s[0]] + rest, '0') { ReplaceMakesNoEntity(s, '2', '>', '0'); }
      }
    }
  }

  // ---- encoding ------------------------------------------------------------------------

  /** `e` is `s` with each separator left alone or stored as its entity, one by one as the firmware likes. */
  predicate Encodes(s: string, e: string) {
    if s == "" then e == ""
    else
      (e != "" && e[0] == s[0] && Encodes(s[1..], e[1..]))
      || (s[0] == '<' && IsEntity(e, '0') && Encodes(s[1..], e[4..]))
      || (s[0] == '>' && IsEntity(e, '2') && Encodes(s[1..], e[4..]))
  }

  predicate NoSeparators(s: string) {
    '<' !in s && '>' !in s
  }

  predicate EntityAt(s: string, i: int) {
    0 <= i <= |s| - 4 && s[i] == '&' && s[i + 1] == '#' && s[i + 2] == '6' && (s[i + 3] == '0' || s[i + 3] == '2')
  }

  /** Neither entity anywhere. */
  ghost predicate NoEntities(s: string) {
    forall i :: !EntityAt(s, i)
  }

  /** A beginning without `&` was copied. */
  lemma {:induction false} CopiedStays(s: string, e: string, n: nat)
    requires Encodes(s, e) && n <= |e| && forall i :: 0 <= i < n ==> e[i] != '&'
    ensures n <= |s| && s[..n] == e[..n]
  {
    if n > 0 {
      CopiedStays(s[1..], e[1..], n - 1);
      assert s[..n] == [s[0]] + s[1..][..n - 1];
      assert e[..n] == [e[0]] + e[1..][..n - 1];
    }
  }

  /** Whatever the firmware encodes, a text without entities reads back as itself. */
  lemma {:induction false} DecodesBack(s: string, e: string)
    requires NoEntities(s) && Encodes(s, e)
    ensures Decode(e) == s
  {
    if s != "" {
      NoEntitiesTail(s);
      if e != "" && e[0] == s[0] && Encodes(s[1..], e[1..]) {
        DecodesBack(s[1..], e[1..]);
        assert !EntityAt(s, 0);
        if IsEntity(e, '0') || IsEntity(e, '2') {
          CopiedStays(s[1..], e[1..], 3);
        }
      } else {
        DecodesBack(s[1..], e[4..]);
      }
    }
  }

  lemma NoEntitiesTail(s: string)
    requires s != "" && NoEntities(s)
    ensures NoEntities(s[1..])
  {
    forall i ensures !EntityAt(s[1..], i) {
      assert !EntityAt(s, i + 1);
    }
  }

  lemma {:induction false} NoSeparatorsEncodeAlone(s: string, e: string)
    requires NoSeparators(s) && Encodes(s, e)
    ensures e == s
  {
    if s != "" {
      assert s[0] in s;
      NoSeparatorsEncodeAlone(s[1..], e[1..]);
      assert e == [e[0]] + e[1..];
    }
  }

  lemma {:induction false} EncodesSplit(a: string, b: string, e: string) returns (ea: string, eb: string)
    requires Encodes(a + b, e)
    ensures e == ea + eb && Encodes(a, ea) && Encodes(b, eb)
  {
    if a == "" {
      assert a + b == b;
      ea, eb := "", e;
    } else {
      assert (a + b)[1..] == a[1..] + b && (a + b)[0] == a[0];
      if e != "" && e[0] == a[0] && Encodes(a[1..] + b, e[1..]) {
        ea, eb := EncodesSplit(a[1..], b, e[1..]);
        ea := [e[0]] + ea;
        assert ea[1..] == e[1..][..|ea| - 1];
      } else {
        ea, eb := EncodesSplit(a[1..], b, e[4..]);
        assert (e[..4] + ea)[4..] == ea && (e[..4] + ea)[..4] == e[..4];
        ea := e[..4] + ea;
      }
    }
  }

  /** Decoding works piecewise at any boundary that does not continue an entity. */
  lemma {:induction false} DecodeConcat(x: string, z: string)
    requires z == "" || z[0] !in "#602"
    ensures Decode(x + z) == Decode(x) + Decode(z)
  {
    if x == "" {
      assert x + z == z;
    } else {
      EntityStopsAt(x, z, '0');
      EntityStopsAt(x, z, '2');
      if IsEntity(x, '0') || IsEntity(x, '2') {
        assert (x + z)[4..] == x[4..] + z;
        DecodeConcat(x[4..], z);
      } else {
        assert (x + z)[1..] == x[1..] + z;
        DecodeConcat(x[1..], z);
      }
    }
  }

  lemma EntityStopsAt(x: string, z: string, d: char)
    requires x != "" && d in "02" && (z == "" || z[0] !in "#602")
    ensures IsEntity(x + z, d) <==> IsEntity(x, d)
  {
  }

  /** However it is encoded, a field in front of a separator reads back in front of whatever follows. */
  lemma FieldReadsBack(u: string, c: char, rest: string, e: string) returns (eu: string, er: string)
    requires (c == '<' || c == '>') && Encodes(u + [c] + rest, e)
    ensures Encodes(u, eu) && Encodes(rest, er) && Decode(e) == Decode(eu) + [c] + Decode(er)
  {
    assert u + [c] + rest == u + ([c] + rest);
    var e1;
    eu, e1 := EncodesSplit(u, [c] + rest, e);
    assert ([c] + rest)[1..] == rest;
    if e1[0] == c {
      er := e1[1..];
      assert e1 == [c] + er;
    } else {
      er := e1[4..];
    }
    DecodeConcat(eu, e1);
    assert Decode(eu) + ([c] + Decode(er)) == Decode(eu) + [c] + Decode(er);
  }

  // ---- what decoding leaves ----------------------------------------------------------------

  lemma DecodeKeepsHead(s: string)
    requires Decode(s) != "" && Decode(s)[0] !in "<>"
    ensures s != "" && s[0] == Decode(s)[0] && Decode(s)[1..] == Decode(s[1..])
  {
  }

  /** A beginning without separators was there before decoding. */
  lemma {:induction false} DecodeKeepsPrefix(s: string, n: nat)
    requires n <= |Decode(s)| && forall i :: 0 <= i < n ==> Decode(s)[i] != '<' && Decode(s)[i] != '>'
    ensures n <= |s| && s[..n] == Decode(s)[..n]
  {
    if n > 0 {
      DecodeKeepsHead(s);
      assert forall i :: 0 <= i < n - 1 ==> Decode(s[1..])[i] == Decode(s)[i + 1];
      DecodeKeepsPrefix(s[1..], n - 1);
      assert s[..n] == [s[0]] + s[1..][..n - 1];
    }
  }

  /** A decoded text contains neither entity. */
  lemma {:induction false} DecodedHasNoEntity(s: string, i: int)
    ensures !EntityAt(Decode(s), i)
  {
    var d := Decode(s);
    if 0 <= i && s != "" {
      var rest := if IsEntity(s, '0') || IsEntity(s, '2') then s[4..] else s[1..];
      assert d[1..] == Decode(rest);
      if i > 0 {
        DecodedHasNoEntity(rest, i - 1);
        assert EntityAt(d, i) ==> EntityAt(d[1..], i - 1);
      } else if EntityAt(d, 0) {
        DecodeKeepsPrefix(s, 4);
      }
    }
  }

  // ---- lists -------------------------------------------------------------------------------

  /** The pieces between the separators; one more than there are separators. */
  function Split(s: string, sep: char): (r: seq<string>)
    ensures |r| >= 1
  {
    if s == "" then [""]
    else
      var r := Split(s[1..], sep);
      if s[0] == sep then [""] + r else [[s[0]] + r[0]] + r[1..]
  }

  /** The parts with a separator between each two. */
  function Join(parts: seq<string>, sep: char): string {
    if parts == [] then ""
    else if |parts| == 1 then parts[0]
    else parts[0] + [sep] + Join(parts[1..], sep)
  }

  lemma {:induction false} SplitAlone(a: string, sep: char)
    requires sep !in a
    ensures Split(a, sep) == [a]
  {
    if a != "" {
      assert a == [a[0]] + a[1..];
      assert a[0] in a;
      SplitAlone(a[1..], sep);
    }
  }

  lemma {:induction false} SplitConcat(a: string, b: string, sep: char)
    ensures Split(a + [sep] + b, sep) == Split(a, sep) + Split(b, sep)
  {
    var s := a + [sep] + b;
    if a == "" {
      assert s[1..] == b;
    } else {
      assert s[1..] == a[1..] + [sep] + b && s[0] == a[0];
      SplitConcat(a[1..], b, sep);
      Regroup(Split(a[1..], sep), Split(b, sep), a[0]);
    }
  }

  lemma Regroup(r: seq<string>, t: seq<string>, c: char)
    requires |r| >= 1
    ensures [""] + (r + t) == ([""] + r) + t
    ensures [[c] + (r + t)[0]] + (r + t)[1..] == ([[c] + r[0]] + r[1..]) + t
  {
  }

  /** Where the `k`-th piece lies in the text; the first one starts it. */
  lemma {:induction false} PieceAt(s: string, sep: char, k: nat) returns (i: nat, j: nat)
    requires k < |Split(s, sep)|
    ensures i <= j <= |s| && Split(s, sep)[k] == s[i..j] && (k == 0 ==> i == 0)
  {
    if s == "" || (s[0] == sep && k == 0) {
      i, j := 0, 0;
    } else if s[0] == sep {
      i, j := PieceAt(s[1..], sep, k - 1);
      assert s[1..][i..j] == s[i + 1..j + 1];
      i, j := i + 1, j + 1;
    } else {
      i, j := PieceAt(s[1..], sep, k);
      assert s[1..][i..j] == s[i + 1..j + 1];
      i, j := if k == 0 then 0 else i + 1, j + 1;
    }
  }

  lemma {:induction false} PiecesLackSeparator(s: string, sep: char, k: nat)
    requires k < |Split(s, sep)|
    ensures sep !in Split(s, sep)[k]
  {
    if s != "" && !(s[0] == sep && k == 0) {
      PiecesLackSeparator(s[1..], sep, if s[0] == sep then k - 1 else k);
    }
  }

  /** Every piece is a slice of the text without the separator. */
  lemma SplitPieces(s: string, sep: char, k: nat)
    requires k < |Split(s, sep)|
    ensures sep !in Split(s, sep)[k]
    ensures exists i, j :: 0 <= i <= j <= |s| && Split(s, sep)[k] == s[i..j]
    ensures exists j :: 0 <= j <= |s| && Split(s, sep)[0] == s[0..j]
  {
    PiecesLackSeparator(s, sep, k);
    var i, j := PieceAt(s, sep, k);
    var i0, j0 := PieceAt(s, sep, 0);
  }

  /** Slices of a decoded text contain no entity. */
  lemma DecodedSlice(s: string, i: nat, j: nat)
    requires i <= j <= |Decode(s)|
    ensures NoEntities(Decode(s)[i..j])
  {
    var t := Decode(s)[i..j];
    forall k ensures !EntityAt(t, k) {
      DecodedHasNoEntity(s, i + k);
      assert EntityAt(t, k) ==> EntityAt(Decode(s), i + k);
    }
  }

  /** The pieces of a decoded text. */
  lemma DecodedPieces(s: string, sep: char, k: nat)
    requires k < |Split(Decode(s), sep)|
    ensures sep !in Split(Decode(s), sep)[k] && NoEntities(Split(Decode(s), sep)[k])
  {
    SplitPieces(Decode(s), sep, k);
    var i, j :| 0 <= i <= j <= |Decode(s)| && Split(Decode(s), sep)[k] == Decode(s)[i..j];
    DecodedSlice(s, i, j);
  }

  // ---- the round trip of a list ---------------------------------------------------------------

  /** Fields that read back as themselves when printed with `>` between them. */
  ghost predicate ListField(u: string) {
    '>' !in u && NoEntities(u)
  }

  /** A printed list reads back field by field for as long as its fields are sound, whatever comes after them;
      and as itself if all are. */
  lemma {:induction false} ListReadsBack(sound: seq<string>, rest: seq<string>, e: string)
    requires forall u :: u in sound ==> ListField(u)
    requires sound + rest != [] && Encodes(Join(sound + rest, '>'), e)
    ensures
      var r := Split(Decode(e), '>');
      |sound| <= |r| && r[..|sound|] == sound && (rest == [] ==> r == sound)
  {
    if sound != [] {
      var u, tail := sound[0], sound[1..] + rest;
      assert u in sound && (sound + rest)[1..] == tail && (sound + rest)[0] == u;
      if tail == [] {
        DecodesBack(u, e);
        SplitAlone(u, '>');
      } else {
        var eu, er := FieldReadsBack(u, '>', Join(tail, '>'), e);
        DecodesBack(u, eu);
        SplitConcat(u, Decode(er), '>');
        SplitAlone(u, '>');
        assert forall x :: x in sound[1..] ==> x in sound;
        ListReadsBack(sound[1..], rest, er);
        assert sound == [u] + sound[1..];
      }
    }
  }
}
