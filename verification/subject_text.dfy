/**
  Two string helpers of the harvester: `joinSubject`, which renders a
  certificate subject when it has no CN, and `patchCRL`, which flattens
  OpenSSL's text rendering of the CRL distribution points extension
  (RFC 5280 section 4.2.1.13).
 */
module SubjectText {
  import opened Wrappers
  import opened PhpStrings

  /** A subject attribute as `openssl_x509_parse` returns it: one string, or an array when the attribute repeats. */
  datatype SubjectValue = Single(s: string) | Multi(parts: seq<string>)

  /** Subject attributes in the order OpenSSL lists them. */
  type Subject = seq<(string, SubjectValue)>

  /** An array value is first joined with single spaces. */
  function RenderValue(v: SubjectValue): string {
    match v
    case Single(s) => s
    case Multi(parts) => Join(parts, " ")
  }

  /** `sprintf('%s=%s', $index, $value)` for one attribute. */
  function Field(key: string, v: SubjectValue): string {
    key + "=" + RenderValue(v)
  }

  /**
    `joinSubject`: every attribute rendered as key=value, concatenated in
    order with nothing in between. The `'0'` branch of the source is left out:
    PHP turns the key "0" into the integer 0, so the strict comparison with the
    string '0' never holds.
   */
  function JoinSubject(fields: Subject): (r: string)
    ensures |r| >= |fields|
    ensures fields == [] <==> r == ""
  {
    if |fields| == 0 then ""
    else Field(fields[0].0, fields[0].1) + JoinSubject(fields[1..])
  }

  /** The subject text opens with the first field's name and closes with the last field's value. */
  lemma {:induction false} JoinSubjectEnds(fields: Subject)
    requires |fields| > 0
    ensures StartsWith(JoinSubject(fields), fields[0].0 + "=")
    ensures EndsWith(JoinSubject(fields), RenderValue(fields[|fields| - 1].1))
  {
    var r := JoinSubject(fields);
    var rest := JoinSubject(fields[1..]);
    assert r == Field(fields[0].0, fields[0].1) + rest;
    assert r[..|fields[0].0 + "="|] == fields[0].0 + "=";
    var v := RenderValue(fields[|fields| - 1].1);
    if |fields| == 1 {
      assert r[|r| - |v|..] == v;
    } else {
      JoinSubjectEnds(fields[1..]);
      assert fields[1..][|fields[1..]| - 1] == fields[|fields| - 1];
      assert r[|r| - |v|..] == rest[|rest| - |v|..];
    }
  }

  /** A single attribute renders as key=value. */
  lemma JoinSubjectSingle(key: string, v: SubjectValue)
    ensures JoinSubject([(key, v)]) == key + "=" + RenderValue(v)
  {
    assert [(key, v)][1..] == [];
  }

  /** The rendering of a concatenation is the concatenation of the renderings: no separator is inserted. */
  lemma {:induction false} JoinSubjectConcat(a: Subject, b: Subject)
    ensures JoinSubject(a + b) == JoinSubject(a) + JoinSubject(b)
    decreases |a|
  {
    if |a| == 0 {
      assert a + b == b;
    } else {
      assert (a + b)[0] == a[0];
      assert (a + b)[1..] == a[1..] + b;
      JoinSubjectConcat(a[1..], b);
    }
  }

  /** The words of a repeated attribute can be recovered by splitting at the single spaces. */
  lemma MultiValueWords(parts: seq<string>)
    requires |parts| >= 1
    requires forall i :: 0 <= i < |parts| ==> ' ' !in parts[i]
    ensures Split(RenderValue(Multi(parts)), ' ') == parts
  {
    SplitJoin(parts, ' ');
  }

  /** Because no separator is inserted, different subjects can render the same text. */
  lemma JoinSubjectAmbiguous()
    ensures JoinSubject([("C", Single("NLO=x"))]) == JoinSubject([("C", Single("NL")), ("O", Single("x"))])
  {
    JoinSubjectSingle("C", Single("NLO=x"));
    JoinSubjectSingle("C", Single("NL"));
    JoinSubjectSingle("O", Single("x"));
    JoinSubjectConcat([("C", Single("NL"))], [("O", Single("x"))]);
    assert [("C", Single("NL"))] + [("O", Single("x"))] == [("C", Single("NL")), ("O", Single("x"))];
  }

  const FullNameLabel := "Full Name:"
  const UriLabel := "  URI:"

  /**
    `patchCRL`: `str_replace(['Full Name:', "\n", '  URI:'], '', $s)`. PHP
    applies the three deletions one after the other, each over the whole
    output of the previous one.
   */
  function PatchCrl(s: string): (r: string)
    ensures '\n' !in r
    ensures |r| <= |s|
    ensures !Occurs(s, FullNameLabel) && '\n' !in s && !Occurs(s, UriLabel) ==> r == s
  {
    var a := RemoveAll(s, FullNameLabel);
    var b := RemoveAll(a, "\n");
    RemoveAllChar(a, '\n');
    assert "\n" == ['\n'];
    assert multiset(RemoveAll(b, UriLabel))['\n'] <= multiset(b)['\n'];
    assert '\n' !in s ==> '\n' !in a;
    WithoutAbsent(a, '\n');
    RemoveAll(b, UriLabel)
  }

  // ----- what `patchCRL` makes of OpenSSL's rendering -----

  /** Segments `pre + u + post`, one per string `u` of `us`, run together. */
  function Framed(pre: string, us: seq<string>, post: string): string {
    if |us| == 0 then "" else pre + us[0] + post + Framed(pre, us[1..], post)
  }

  /**
    OpenSSL's text for distribution points that each name one URI: a
    "Full Name:" line, then the URI indented under its label, each line ended
    by "\n".
   */
  function CrlPoints(us: seq<string>): string {
    Framed(FullNameLabel + "\n" + UriLabel, us, "\n")
  }

  /** A URI as it can appear in that text: one line, holding neither label. */
  predicate PlainUri(u: string) {
    '\n' !in u && !Occurs(u, FullNameLabel) && !Occurs(u, UriLabel)
  }

  /** No occurrence of `p` starts inside the segment `pre + u + post` written before `tail`. */
  predicate SegmentClean(p: string, pre: string, u: string, post: string, tail: string) {
    forall i :: 0 <= i < |pre + u + post| ==> !OccursAt(pre + u + post + tail, p, i)
  }

  /** No proper suffix of `p` is also a prefix of `p`, so two copies of `p` cannot overlap. */
  predicate BorderFree(p: string) {
    forall m :: 1 <= m < |p| ==> p[m..] != p[..|p| - m]
  }

  lemma FramedUnfold(p: string, pre: string, us: seq<string>, post: string)
    requires |us| > 0
    ensures Framed(p + pre, us, post) == p + ((pre + us[0] + post) + Framed(p + pre, us[1..], post))
  {
  }

  lemma SplitAt(a: string, b: string)
    ensures (a + b)[..|a|] == a && (a + b)[|a|..] == b
  {
  }

  /** Framed text is empty or starts with the first frame. */
  lemma FramedStart(pre: string, us: seq<string>, post: string)
    ensures Framed(pre, us, post) == [] || StartsWith(Framed(pre, us, post), pre)
  {
    if |us| > 0 {
      var f := Framed(pre, us, post);
      assert f == pre + (us[0] + post + Framed(pre, us[1..], post));
      assert f[..|pre|] == pre;
    }
  }

  /** Without frames the segments are just the strings, run together. */
  lemma {:induction false} FramedBare(us: seq<string>)
    ensures Framed("", us, "") == Concat(us)
    decreases |us|
  {
    if |us| > 0 {
      FramedBare(us[1..]);
      assert "" + us[0] + "" == us[0];
    }
  }

  /**
    Deleting `p` from segments that each open with `p + pre` strips exactly
    those leading copies, when no other copy of `p` starts inside a segment.
   */
  lemma {:induction false} RemoveAllFramed(p: string, pre: string, us: seq<string>, post: string)
    requires p != []
    requires forall k :: 0 <= k < |us| ==> SegmentClean(p, pre, us[k], post, Framed(p + pre, us[k + 1..], post))
    ensures RemoveAll(Framed(p + pre, us, post), p) == Framed(pre, us, post)
    decreases |us|
  {
    if |us| > 0 {
      var seg := pre + us[0] + post;
      var tail := Framed(p + pre, us[1..], post);
      FramedUnfold(p, pre, us, post);
      RemoveAllHead(p, seg + tail);
      assert SegmentClean(p, pre, us[0], post, tail);
      RemoveAllClean(seg + tail, p, |seg|);
      SplitAt(seg, tail);
      forall k | 0 <= k < |us[1..]|
        ensures SegmentClean(p, pre, us[1..][k], post, Framed(p + pre, us[1..][k + 1..], post))
      {
        assert us[1..][k] == us[k + 1] && us[1..][k + 1..] == us[k + 2..];
        assert SegmentClean(p, pre, us[k + 1], post, Framed(p + pre, us[k + 2..], post));
      }
      RemoveAllFramed(p, pre, us[1..], post);
    }
  }

  /**
    A segment is clean when `p` cannot start in `pre` or `post`, does not
    occur in `u`, and cannot run over the first character of `post`.
   */
  lemma {:induction false} StopClean(p: string, pre: string, u: string, post: string, tail: string)
    requires p != [] && post != []
    requires p[0] !in pre && p[0] !in post && post[0] !in p
    requires !Occurs(u, p)
    ensures SegmentClean(p, pre, u, post, tail)
  {
    var s := pre + u + post + tail;
    forall i | 0 <= i < |pre + u + post| ensures !OccursAt(s, p, i) {
      if i < |pre| {
        assert s[i] == pre[i];
      } else if i >= |pre| + |u| {
        assert s[i] == post[i - |pre| - |u|];
      } else if i + |p| <= |pre| + |u| {
        assert s[i..i + |p|] == u[i - |pre|..i - |pre| + |p|];
        assert !OccursAt(u, p, i - |pre|);
      } else if i + |p| <= |s| {
        var k := |pre| + |u|;
        assert s[i..i + |p|][k - i] == post[0];
      }
    }
  }

  /**
    With no frame around it, a string in which `p` does not occur is clean
    when what follows is empty or opens with `p`, provided copies of `p`
    cannot overlap.
   */
  lemma {:induction false} BorderClean(p: string, u: string, tail: string)
    requires p != [] && BorderFree(p) && !Occurs(u, p)
    requires tail == [] || StartsWith(tail, p)
    ensures SegmentClean(p, "", u, "", tail)
  {
    assert "" + u + "" == u;
    var s := u + tail;
    forall i | 0 <= i < |u| ensures !OccursAt(s, p, i) {
      if i + |p| <= |u| {
        assert s[i..i + |p|] == u[i..i + |p|];
        assert !OccursAt(u, p, i);
      } else if i + |p| <= |s| {
        var m := |u| - i;
        assert s[i..i + |p|][m..] == tail[..|p| - m] == p[..|p| - m];
        assert p[m..] != p[..|p| - m];
      }
    }
  }

  lemma UriLabelBorderFree()
    ensures BorderFree(UriLabel)
  {
    forall m | 1 <= m < |UriLabel| ensures UriLabel[m..] != UriLabel[..|UriLabel| - m] {
      assert UriLabel[m..][|UriLabel| - m - 1] == ':';
      assert UriLabel[..|UriLabel| - m][|UriLabel| - m - 1] != ':';
    }
  }

  /** The line breaks around a one-line segment go, and what they enclosed stays. */
  lemma {:induction false} BreaksSegment(w: string, tail: string)
    requires '\n' !in w
    ensures RemoveAll("\n" + w + "\n" + tail, "\n") == w + RemoveAll(tail, "\n")
  {
    var nl := "\n";
    var rest := w + (nl + tail);
    assert nl + w + nl + tail == nl + rest;
    RemoveAllHead(nl, rest);
    forall i | 0 <= i < |w| ensures !OccursAt(rest, nl, i) {
      assert rest[i..i + 1][0] == w[i];
    }
    RemoveAllClean(rest, nl, |w|);
    SplitAt(w, nl + tail);
    RemoveAllHead(nl, tail);
  }

  lemma Regroup(a: string, b: string, c: string, d: string, e: string)
    ensures a + b + c + d + e == a + (b + c) + d + e
  {
  }

  /** Deleting the line breaks joins each URI to the label `x` before it. */
  lemma {:induction false} BreaksFramed(x: string, us: seq<string>)
    requires '\n' !in x
    requires forall k :: 0 <= k < |us| ==> '\n' !in us[k]
    ensures RemoveAll(Framed("\n" + x, us, "\n"), "\n") == Framed(x, us, "")
    decreases |us|
  {
    if |us| > 0 {
      var w := x + us[0];
      var tail := Framed("\n" + x, us[1..], "\n");
      Regroup("\n", x, us[0], "\n", tail);
      BreaksSegment(w, tail);
      BreaksFramed(x, us[1..]);
      assert Framed(x, us, "") == w + "" + Framed(x, us[1..], "");
      assert w + "" == w;
    }
  }

  /**
    Deleting `p` from segments that each open with `p + pre` and close with
    `post` strips exactly those leading copies, when `p` cannot start in a
    frame nor occur in a string, and the closing character stops it.
   */
  lemma {:induction false} StripStopped(p: string, pre: string, us: seq<string>, post: string)
    requires p != [] && post != []
    requires p[0] !in pre && p[0] !in post && post[0] !in p
    requires forall k :: 0 <= k < |us| ==> !Occurs(us[k], p)
    ensures RemoveAll(Framed(p + pre, us, post), p) == Framed(pre, us, post)
  {
    forall k | 0 <= k < |us|
      ensures SegmentClean(p, pre, us[k], post, Framed(p + pre, us[k + 1..], post))
    {
      StopClean(p, pre, us[k], post, Framed(p + pre, us[k + 1..], post));
    }
    RemoveAllFramed(p, pre, us, post);
  }

  /** The first pass deletes the "Full Name:" label opening each point. */
  lemma {:induction false} StripFullName(us: seq<string>)
    requires forall k :: 0 <= k < |us| ==> PlainUri(us[k])
    ensures RemoveAll(CrlPoints(us), FullNameLabel) == Framed("\n" + UriLabel, us, "\n")
  {
    var pre := "\n" + UriLabel;
    assert FullNameLabel + "\n" + UriLabel == FullNameLabel + pre;
    assert FullNameLabel[0] == 'F' && 'F' !in pre && '\n' !in FullNameLabel;
    StripStopped(FullNameLabel, pre, us, "\n");
  }

  /** The last pass deletes the "  URI:" label before each URI. */
  lemma {:induction false} StripUriLabel(us: seq<string>)
    requires forall k :: 0 <= k < |us| ==> !Occurs(us[k], UriLabel)
    ensures RemoveAll(Framed(UriLabel, us, ""), UriLabel) == Concat(us)
  {
    assert UriLabel + "" == UriLabel;
    UriLabelBorderFree();
    forall k | 0 <= k < |us|
      ensures SegmentClean(UriLabel, "", us[k], "", Framed(UriLabel + "", us[k + 1..], ""))
    {
      FramedStart(UriLabel, us[k + 1..], "");
      BorderClean(UriLabel, us[k], Framed(UriLabel, us[k + 1..], ""));
    }
    RemoveAllFramed(UriLabel, "", us, "");
    FramedBare(us);
  }

  /**
    Flattening the text of distribution points that each name one URI leaves
    the URIs, run together with nothing between them.
   */
  lemma {:induction false} PatchCrlPoints(us: seq<string>)
    requires forall k :: 0 <= k < |us| ==> PlainUri(us[k])
    ensures PatchCrl(CrlPoints(us)) == Concat(us)
  {
    forall k | 0 <= k < |us| ensures '\n' !in us[k] && !Occurs(us[k], UriLabel) {
      assert PlainUri(us[k]);
    }
    StripFullName(us);
    BreaksFramed(UriLabel, us);
    StripUriLabel(us);
  }

  lemma {:induction false} CrlPointsOne(u: string)
    ensures CrlPoints([u]) == "Full Name:\n  URI:" + u + "\n"
  {
    var head := FullNameLabel + "\n" + UriLabel;
    assert head == "Full Name:\n  URI:";
    assert [u][1..] == [];
    assert Framed(head, [u], "\n") == head + u + "\n" + Framed(head, [], "\n");
    assert head + u + "\n" + "" == head + u + "\n";
  }

  lemma {:induction false} CrlPointsTwo(u1: string, u2: string)
    ensures CrlPoints([u1, u2]) == "Full Name:\n  URI:" + u1 + "\n" + "Full Name:\n  URI:" + u2 + "\n"
  {
    assert [u1, u2][1..] == [u2];
    CrlPointsOne(u2);
  }

  /** One distribution point: the URI alone is left. */
  lemma {:induction false} PatchCrlOnePoint(u: string)
    requires PlainUri(u)
    ensures PatchCrl("Full Name:\n  URI:" + u + "\n") == u
  {
    CrlPointsOne(u);
    PatchCrlPoints([u]);
    ConcatOne(u);
    SameText(PatchCrl(CrlPoints([u])), Concat([u]), u);
  }

  /** Two distribution points: their URIs come out glued together, with no separator. */
  lemma {:induction false} PatchCrlTwoPoints(u1: string, u2: string)
    requires PlainUri(u1) && PlainUri(u2)
    ensures PatchCrl("Full Name:\n  URI:" + u1 + "\n" + "Full Name:\n  URI:" + u2 + "\n") == u1 + u2
  {
    CrlPointsTwo(u1, u2);
    PatchCrlPoints([u1, u2]);
    ConcatTwo(u1, u2);
    SameText(PatchCrl(CrlPoints([u1, u2])), Concat([u1, u2]), u1 + u2);
  }

  lemma ConcatOne(u: string)
    ensures Concat([u]) == u
  {
    assert Concat([u]) == u + Concat([]);
  }

  lemma ConcatTwo(u1: string, u2: string)
    ensures Concat([u1, u2]) == u1 + u2
  {
    assert [u1, u2][1..] == [u2];
    assert Concat([u2]) == u2 + Concat([]);
  }
}
