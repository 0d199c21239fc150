/**
  PEM armouring of the base64 certificate found in a trust list, as RFC 7468
  sections 2 and 5 describe it: a "CERTIFICATE" label line, the base64 body in
  lines of 64 characters, and an end line. The harvester builds this text in
  two ways: with `chunk_split(trim($certificate), 64, "\n")` for OpenSSL and
  with `wordwrap($certificate, 64, "\n", true)` for the `.cer` file.
 */
module Pem {
  import opened Wrappers
  import opened PhpStrings

  const BeginLine := "-----BEGIN CERTIFICATE-----"
  const EndLine := "-----END CERTIFICATE-----"
  const LineWidth := 64

  /** `s` cut into consecutive pieces of `n` characters; only the last may be shorter. */
  function Chunks(s: string, n: nat): (cs: seq<string>)
    requires n > 0
    ensures Concat(cs) == s
    ensures cs == [] <==> s == []
    ensures forall i :: 0 <= i < |cs| ==> 1 <= |cs[i]| <= n
    ensures forall i :: 0 <= i < |cs| - 1 ==> |cs[i]| == n
    decreases |s|
  {
    if |s| == 0 then []
    else if |s| <= n then [s]
    else
      var rest := Chunks(s[n..], n);
      var cs := [s[..n]] + rest;
      assert cs[1..] == rest;
      assert s == s[..n] + s[n..];
      cs
  }

  /** Every piece followed by a line break. */
  function Lines(cs: seq<string>): string {
    if |cs| == 0 then "" else cs[0] + "\n" + Lines(cs[1..])
  }

  /** The loop of PHP's `chunk_split`: whole pieces of `n` characters, then the remainder, each followed by "\n". */
  function ChunkLoop(s: string, n: nat): string
    requires n > 0
    decreases |s|
  {
    if |s| >= n then s[..n] + "\n" + ChunkLoop(s[n..], n)
    else if |s| > 0 then s + "\n"
    else ""
  }

  /**
    PHP `chunk_split($s, $n, "\n")`. A string shorter than `n`, the empty string
    included, comes back with one "\n" appended.
   */
  function ChunkSplit(s: string, n: nat): (r: string)
    requires n > 0
    ensures r == if s == [] then "\n" else Lines(Chunks(s, n))
  {
    ChunkLoopLines(s, n);
    if n > |s| then s + "\n" else ChunkLoop(s, n)
  }

  /**
    The PEM text built at index.php:169-171. Armouring loses nothing: the
    trimmed certificate can be read back out of it.
   */
  function Armour(certificate: string): (r: string)
    ensures Dearmour(r) == Some(Trim(certificate))
  {
    var t := Trim(certificate);
    var head := BeginLine + "\n";
    var tail := EndLine + "\n";
    var body := ChunkSplit(t, LineWidth);
    var r := head + body + tail;
    assert Dearmour(r) == Some(t) by {
      FramedParts(head, body, tail);
      if t != [] {
        UnchunkLines(t, LineWidth);
      }
    }
    r
  }

  /** Undoes `ChunkSplit`: drops the line break after every `n` characters and the final one. */
  function Unchunk(b: string, n: nat): Option<string>
    requires n > 0
    decreases |b|
  {
    if |b| <= n + 1 then
      (if |b| >= 1 && b[|b| - 1] == '\n' then Some(b[..|b| - 1]) else None)
    else if b[n] != '\n' then None
    else
      match Unchunk(b[n + 1..], n)
      case Some(rest) => Some(b[..n] + rest)
      case None => None
  }

  /** Reads the base64 body back out of an armoured certificate. */
  function Dearmour(text: string): Option<string> {
    var head := BeginLine + "\n";
    var tail := EndLine + "\n";
    if |text| >= |head| + |tail| && StartsWith(text, head) && EndsWith(text, tail) then
      Unchunk(text[|head|..|text| - |tail|], LineWidth)
    else None
  }

  // ----- chunk_split -----

  lemma {:induction false} ChunkLoopLines(s: string, n: nat)
    requires n > 0
    ensures ChunkLoop(s, n) == Lines(Chunks(s, n))
    decreases |s|
  {
    if |s| > n {
      ChunkLoopLines(s[n..], n);
      assert ([s[..n]] + Chunks(s[n..], n))[1..] == Chunks(s[n..], n);
    } else if |s| == n {
      assert s[..n] == s && s[n..] == [];
    }
  }

  lemma {:induction false} UnchunkLines(s: string, n: nat)
    requires n > 0 && s != []
    ensures Unchunk(Lines(Chunks(s, n)), n) == Some(s)
    decreases |s|
  {
    var b := Lines(Chunks(s, n));
    if |s| <= n {
      assert Chunks(s, n) == [s];
      assert [s][1..] == [];
      assert Lines([s]) == s + "\n" + Lines([]);
      assert b == s + "\n";
      assert b[..|b| - 1] == s;
    } else {
      var rest := Lines(Chunks(s[n..], n));
      assert ([s[..n]] + Chunks(s[n..], n))[1..] == Chunks(s[n..], n);
      assert b == s[..n] + "\n" + rest;
      assert |rest| >= 1 by { assert Chunks(s[n..], n) != []; }
      assert b[n] == '\n';
      assert b[n + 1..] == rest;
      assert b[..n] == s[..n];
      UnchunkLines(s[n..], n);
      assert s == s[..n] + s[n..];
    }
  }

  /** The frame and the body of a framed text can be cut apart again. */
  lemma FramedParts(head: string, body: string, tail: string)
    ensures var text := head + body + tail;
      && StartsWith(text, head) && EndsWith(text, tail)
      && text[|head|..|text| - |tail|] == body
  {
    var text := head + body + tail;
    assert text[..|head|] == head;
    assert text[|text| - |tail|..] == tail;
  }

  /** Surrounding blanks do not change the armour. */
  lemma ArmourIgnoresPadding(certificate: string)
    ensures Armour(certificate) == Armour(Trim(certificate))
  {
    TrimIdempotent(certificate);
  }

  /**
    The shape RFC 7468 asks for: the label lines around pieces of exactly 64
    characters except the last, which has 1 to 64, each followed by a line
    break; together the pieces spell the trimmed certificate. The pieces are
    the lines of the text only when the certificate has no line break of its
    own (`ArmourLines`, `WrappedInputLines`).
   */
  lemma ArmourShape(certificate: string)
    requires Trim(certificate) != []
    ensures var lines := Chunks(Trim(certificate), LineWidth);
      && Armour(certificate) == BeginLine + "\n" + Lines(lines) + EndLine + "\n"
      && |lines| >= 1
      && (forall i :: 0 <= i < |lines| - 1 ==> |lines[i]| == 64)
      && 1 <= |lines[|lines| - 1]| <= 64
      && Concat(lines) == Trim(certificate)
  {
  }

  // ----- wordwrap -----

  /**
    The loop of PHP's `wordwrap($t, $width, "\n", true)`, one character per
    step. `ls` is where the current line starts in `t`, `sp` the last space
    seen, `out` what has been written so far. An existing "\n" (other than the
    last character) ends a line; a space past the width becomes the break;
    a word longer than the width is cut; otherwise the line is broken at the
    last space.
   */
  function WrapFrom(t: string, width: nat, cur: nat, ls: nat, sp: nat, out: string): string
    requires width > 0
    requires ls <= cur <= |t| && sp <= cur
    requires sp < cur || ls >= sp
    decreases |t| - cur
  {
    if cur == |t| then
      (if ls != cur then out + t[ls..cur] else out)
    else if t[cur] == '\n' && cur + 1 < |t| then
      WrapFrom(t, width, cur + 1, cur + 1, cur + 1, out + t[ls..cur + 1])
    else if t[cur] == ' ' then
      if cur - ls >= width then WrapFrom(t, width, cur + 1, cur + 1, cur, out + t[ls..cur] + "\n")
      else WrapFrom(t, width, cur + 1, ls, cur, out)
    else if cur - ls >= width && ls >= sp then
      WrapFrom(t, width, cur + 1, cur, cur, out + t[ls..cur] + "\n")
    else if cur - ls >= width && ls < sp then
      WrapFrom(t, width, cur + 1, sp + 1, sp + 1, out + t[ls..sp] + "\n")
    else
      WrapFrom(t, width, cur + 1, ls, sp, out)
  }

  /** PHP `wordwrap($t, $width, "\n", true)`; PHP refuses a zero width when cutting. */
  function WordWrap(t: string, width: nat): (r: string)
    requires width > 0
    ensures NoBlanks(t) ==> r == Join(Chunks(t, width), "\n")
  {
    var r := WrapFrom(t, width, 0, 0, 0, "");
    assert NoBlanks(t) ==> r == Join(Chunks(t, width), "\n") by {
      if NoBlanks(t) {
        WrapFromNoBlanks(t, width, 0, 0, "");
        assert t[0..] == t;
      }
    }
    r
  }

  /**
    The text written to the `.cer` file at index.php:233: no trim, and no "\n"
    after the end line. For a certificate without blanks it is the PEM text
    given to OpenSSL without its final line break.
   */
  function CerText(certificate: string): (r: string)
    ensures StartsWith(r, BeginLine + "\n") && EndsWith(r, "\n" + EndLine)
    ensures NoBlanks(certificate) ==> r + "\n" == Armour(certificate)
  {
    var w := WordWrap(certificate, LineWidth);
    var r := BeginLine + "\n" + w + "\n" + EndLine;
    assert StartsWith(r, BeginLine + "\n") && EndsWith(r, "\n" + EndLine) by {
      FramedParts(BeginLine + "\n", w, "\n" + EndLine);
      assert r == BeginLine + "\n" + w + ("\n" + EndLine);
    }
    assert NoBlanks(certificate) ==> r + "\n" == Armour(certificate) by {
      if NoBlanks(certificate) {
        TrimNoBlanks(certificate);
        WrapMatchesChunkSplit(certificate);
        ArmourRegroup(BeginLine + "\n", w, EndLine, "\n");
      }
    }
    r
  }

  predicate NoBlanks(t: string) {
    forall i :: 0 <= i < |t| ==> !IsTrimChar(t[i])
  }

  /** A text longer than one piece starts with a full piece followed by the pieces of the rest. */
  lemma ChunksStep(u: string, n: nat)
    requires n > 0 && |u| > n
    ensures Chunks(u, n) == [u[..n]] + Chunks(u[n..], n)
    ensures Chunks(u[n..], n) != []
  {
  }

  lemma JoinCons(x: string, rest: seq<string>, sep: string)
    requires rest != []
    ensures Join([x] + rest, sep) == x + sep + Join(rest, sep)
  {
    assert ([x] + rest)[1..] == rest;
  }

  lemma Assoc4(a: string, b: string, c: string, d: string)
    ensures a + b + c + d == a + (b + c + d)
  {
  }

  /** On a non-blank character at the width, `wordwrap` cuts the line before it. */
  lemma WrapFromCutStep(t: string, width: nat, cur: nat, ls: nat, out: string)
    requires width > 0 && NoBlanks(t)
    requires ls <= cur < |t| && cur - ls == width
    ensures WrapFrom(t, width, cur, ls, ls, out) == WrapFrom(t, width, cur + 1, cur, cur, out + t[ls..cur] + "\n")
  {
    assert t[cur] != '\n' && t[cur] != ' ';
  }

  /** Below the width, a non-blank character just extends the line. */
  lemma WrapFromKeepStep(t: string, width: nat, cur: nat, ls: nat, out: string)
    requires width > 0 && NoBlanks(t)
    requires ls <= cur < |t| && cur - ls < width
    ensures WrapFrom(t, width, cur, ls, ls, out) == WrapFrom(t, width, cur + 1, ls, ls, out)
  {
    assert t[cur] != '\n' && t[cur] != ' ';
  }

  /** Cutting off one full piece and joining the pieces of the rest is joining the pieces of the whole. */
  lemma CutJoin(t: string, width: nat, ls: nat, cur: nat, out: string)
    requires width > 0 && ls <= cur < |t| && cur - ls == width
    ensures out + t[ls..cur] + "\n" + Join(Chunks(t[cur..], width), "\n") == out + Join(Chunks(t[ls..], width), "\n")
  {
    var piece := t[ls..cur];
    var u := t[ls..];
    assert u[..width] == piece;
    assert u[width..] == t[cur..];
    ChunksStep(u, width);
    JoinCons(piece, Chunks(t[cur..], width), "\n");
    Assoc4(out, piece, "\n", Join(Chunks(t[cur..], width), "\n"));
  }

  lemma {:induction false} WrapFromNoBlanks(t: string, width: nat, cur: nat, ls: nat, out: string)
    requires width > 0 && NoBlanks(t)
    requires ls <= cur <= |t| && cur - ls <= width
    ensures WrapFrom(t, width, cur, ls, ls, out) == out + Join(Chunks(t[ls..], width), "\n")
    decreases |t| - cur
  {
    if cur == |t| {
      if ls != cur {
        assert Chunks(t[ls..], width) == [t[ls..]];
      } else {
        assert t[ls..] == [];
      }
    } else if cur - ls == width {
      WrapFromCutStep(t, width, cur, ls, out);
      WrapFromNoBlanks(t, width, cur + 1, cur, out + t[ls..cur] + "\n");
      CutJoin(t, width, ls, cur, out);
    } else {
      WrapFromKeepStep(t, width, cur, ls, out);
      WrapFromNoBlanks(t, width, cur + 1, ls, out);
    }
  }

  lemma {:induction false} LinesIsJoin(cs: seq<string>)
    requires cs != []
    ensures Lines(cs) == Join(cs, "\n") + "\n"
    decreases |cs|
  {
    if |cs| > 1 {
      LinesIsJoin(cs[1..]);
    }
  }

  lemma TrimNoBlanks(t: string)
    requires NoBlanks(t)
    ensures Trim(t) == t
  {
    TrimPadded([], t, []);
    assert [] + t + [] == t;
  }

  /** Without blanks, the wrapped body plus a line break is exactly what `chunk_split` produces. */
  lemma WrapMatchesChunkSplit(t: string)
    requires NoBlanks(t)
    ensures WordWrap(t, LineWidth) + "\n" == ChunkSplit(t, LineWidth)
  {
    if t != [] {
      LinesIsJoin(Chunks(t, LineWidth));
    } else {
      assert Chunks(t, LineWidth) == [];
    }
  }

  /** The regrouping of the concatenations behind `CerText`. */
  lemma ArmourRegroup(head: string, w: string, e: string, n: string)
    ensures head + w + n + e + n == head + (w + n) + e + n
  {
  }

  // ----- the lines of the PEM text -----

  lemma {:induction false} JoinAppend(a: seq<string>, b: seq<string>, sep: string)
    requires a != [] && b != []
    ensures Join(a + b, sep) == Join(a, sep) + sep + Join(b, sep)
    decreases |a|
  {
    if |a| == 1 {
      assert (a + b)[1..] == b;
    } else {
      assert (a + b)[1..] == a[1..] + b;
      JoinAppend(a[1..], b, sep);
    }
  }

  lemma {:induction false} ConcatHolds(cs: seq<string>, i: int, c: char)
    requires 0 <= i < |cs| && c in cs[i]
    ensures c in Concat(cs)
    decreases i
  {
    if i > 0 {
      ConcatHolds(cs[1..], i - 1, c);
    }
  }

  /** A character absent from the text is absent from every piece. */
  lemma ChunksAvoid(s: string, n: nat, c: char)
    requires n > 0 && c !in s
    ensures forall i :: 0 <= i < |Chunks(s, n)| ==> c !in Chunks(s, n)[i]
  {
    forall i | 0 <= i < |Chunks(s, n)| ensures c !in Chunks(s, n)[i] {
      if c in Chunks(s, n)[i] {
        ConcatHolds(Chunks(s, n), i, c);
      }
    }
  }

  /** The pieces `chunk_split` writes on lines of their own: one empty piece for an empty certificate. */
  function Pieces(t: string): seq<string> {
    if t == [] then [""] else Chunks(t, LineWidth)
  }

  lemma ArmourBody(t: string)
    ensures ChunkSplit(t, LineWidth) == Join(Pieces(t), "\n") + "\n"
  {
    if t == [] {
      assert Lines([""]) == "" + "\n" + Lines([]);
    }
    LinesIsJoin(Pieces(t));
  }

  /** The PEM text is the begin line, the `chunk_split` body and the end line. */
  lemma {:induction false} ArmourText(certificate: string)
    ensures Armour(certificate) == BeginLine + "\n" + ChunkSplit(Trim(certificate), LineWidth) + (EndLine + "\n")
  {
  }

  lemma {:induction false} PiecesJoin(t: string)
    ensures Join([BeginLine] + Pieces(t) + [EndLine, ""], "\n") == BeginLine + "\n" + ChunkSplit(t, LineWidth) + (EndLine + "\n")
  {
    var cs := Pieces(t);
    ArmourBody(t);
    JoinCons(BeginLine, cs, "\n");
    JoinAppend([BeginLine] + cs, [EndLine, ""], "\n");
    JoinCons(EndLine, [""], "\n");
    ArmourRegroup(BeginLine + "\n", Join(cs, "\n"), EndLine, "\n");
  }

  /** The PEM text joins its lines with line breaks. */
  lemma {:induction false} ArmourJoin(certificate: string)
    ensures Armour(certificate) == Join([BeginLine] + Pieces(Trim(certificate)) + [EndLine, ""], "\n")
  {
    var t := Trim(certificate);
    ArmourText(certificate);
    PiecesJoin(t);
    SameText(Armour(certificate), BeginLine + "\n" + ChunkSplit(t, LineWidth) + (EndLine + "\n"),
      Join([BeginLine] + Pieces(t) + [EndLine, ""], "\n"));
  }

  /**
    For a certificate without a line break of its own, the lines of the PEM
    text are the begin line, the 64-character pieces of the trimmed
    certificate (one empty line when it is empty), the end line, and the empty
    remainder after the final line break.
   */
  lemma ArmourLines(certificate: string)
    requires '\n' !in Trim(certificate)
    ensures Split(Armour(certificate), '\n') ==
      [BeginLine] + (if Trim(certificate) == [] then [""] else Chunks(Trim(certificate), LineWidth)) + [EndLine, ""]
  {
    var t := Trim(certificate);
    ArmourJoin(certificate);
    if t != [] {
      ChunksAvoid(t, LineWidth, '\n');
    }
    LabelsOneLine();
    FramedSplit(BeginLine, Pieces(t), EndLine);
  }

  /** Framing one-line pieces with one-line labels and an empty remainder keeps every part on one line. */
  lemma FramedOneLine(b: string, cs: seq<string>, e: string)
    requires '\n' !in b && '\n' !in e
    requires forall i :: 0 <= i < |cs| ==> '\n' !in cs[i]
    ensures var parts := [b] + cs + [e, ""]; forall i :: 0 <= i < |parts| ==> '\n' !in parts[i]
  {
    var parts := [b] + cs + [e, ""];
    forall i | 0 <= i < |parts| ensures '\n' !in parts[i] {
      if i == 0 {
        assert parts[i] == b;
      } else if i <= |cs| {
        assert parts[i] == cs[i - 1];
      } else if i == |cs| + 1 {
        assert parts[i] == e;
      } else {
        assert parts[i] == "";
      }
    }
  }

  /** Splitting framed one-line pieces at the line breaks that joined them gives them back. */
  lemma FramedSplit(b: string, cs: seq<string>, e: string)
    requires '\n' !in b && '\n' !in e
    requires forall i :: 0 <= i < |cs| ==> '\n' !in cs[i]
    ensures Split(Join([b] + cs + [e, ""], "\n"), '\n') == [b] + cs + [e, ""]
  {
    FramedOneLine(b, cs, e);
    assert "\n" == ['\n'];
    SplitJoin([b] + cs + [e, ""], '\n');
  }

  lemma LabelsOneLine()
    ensures '\n' !in BeginLine && '\n' !in EndLine
  {
  }

  /**
    A base64 value that arrives wrapped over several lines keeps its line
    breaks inside the pieces, so the body `chunk_split` writes has lines of
    other lengths than 64.
   */
  lemma WrappedInputLines()
    ensures Chunks("AB\nCD", LineWidth) == ["AB\nCD"]
    ensures Split(ChunkSplit("AB\nCD", LineWidth), '\n') == ["AB", "CD", ""]
  {
    var parts := ["AB", "CD", ""];
    assert ChunkSplit("AB\nCD", LineWidth) == "AB\nCD\n";
    JoinCons("CD", [""], "\n");
    assert Join([""], "\n") == "";
    assert ["CD"] + [""] == ["CD", ""];
    JoinCons("AB", ["CD", ""], "\n");
    assert ["AB"] + ["CD", ""] == parts;
    assert "AB" + "\n" + ("CD" + "\n" + "") == "AB\nCD\n";
    assert Join(parts, "\n") == "AB\nCD\n";
    assert "\n" == ['\n'];
    SplitJoin(parts, '\n');
  }

  lemma {:induction false} WrappedChunks(a: string, b: string)
    requires |a| == 40 && |b| == 40
    ensures Chunks(a + "\n" + b, LineWidth) == [a + "\n" + b[..23], b[23..]]
  {
    var s := a + "\n" + b;
    assert s[..64] == a + "\n" + b[..23];
    assert s[64..] == b[23..];
    ChunksStep(s, LineWidth);
    assert Chunks(s[64..], LineWidth) == [b[23..]];
  }

  lemma {:induction false} WrappedBody(a: string, b: string)
    requires |a| == 40 && |b| == 40
    ensures ChunkSplit(a + "\n" + b, LineWidth) == a + "\n" + b[..23] + "\n" + (b[23..] + "\n" + "")
  {
    var cs := [a + "\n" + b[..23], b[23..]];
    WrappedChunks(a, b);
    assert cs[1..] == [b[23..]];
    assert Lines(cs[1..]) == b[23..] + "\n" + Lines([]);
  }

  lemma {:induction false} JoinThreeLines(x: string, y: string, z: string)
    ensures Join([x, y, z, ""], "\n") == x + "\n" + y + "\n" + (z + "\n" + "")
  {
    var parts := [x, y, z, ""];
    JoinCons(z, [""], "\n");
    assert [z] + [""] == parts[2..];
    JoinCons(y, parts[2..], "\n");
    assert [y] + parts[2..] == parts[1..];
    JoinCons(x, parts[1..], "\n");
    assert [x] + parts[1..] == parts;
  }

  /**
    The breaks of a wrapped value are kept, and `chunk_split` still cuts every
    64 characters, counting them: two lines of 40 come out as lines of 40, 23
    and 17.
   */
  lemma {:induction false} WrappedInputCut(a: string, b: string)
    requires |a| == 40 && |b| == 40 && '\n' !in a && '\n' !in b
    ensures Chunks(a + "\n" + b, LineWidth) == [a + "\n" + b[..23], b[23..]]
    ensures Split(ChunkSplit(a + "\n" + b, LineWidth), '\n') == [a, b[..23], b[23..], ""]
  {
    var parts := [a, b[..23], b[23..], ""];
    WrappedChunks(a, b);
    WrappedBody(a, b);
    JoinThreeLines(a, b[..23], b[23..]);
    assert "\n" == ['\n'];
    assert forall i :: 0 <= i < |parts| ==> '\n' !in parts[i];
    SplitJoin(parts, '\n');
  }
}
