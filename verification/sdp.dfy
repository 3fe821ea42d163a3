/** `insertStereoSupportForOpus` (system-audio-demo/js/main.js): a line-by-line rewrite
    of an SDP body (RFC 8866) that appends the Opus format parameter `stereo=1`
    (section 7 of RFC 7587) to the `a=fmtp` line of payload type 111. */
module Sdp {

  const Crlf: string := "\r\n"
  const OpusRtpmap: string := "a=rtpmap:111 opus/48000"
  const OpusFmtp: string := "a=fmtp:111"
  const Stereo: string := "stereo=1"
  const StereoSuffix: string := ";stereo=1"

  /** `s.startsWith(p)` */
  predicate StartsWith(s: string, p: string) {
    |p| <= |s| && s[..|p|] == p
  }

  /** `s.includes(p)` */
  predicate Contains(s: string, p: string)
    decreases |s|
  {
    StartsWith(s, p) || (|s| > 0 && Contains(s[1..], p))
  }

  /** No CRLF occurs anywhere in `s`. */
  predicate NoCrlf(s: string)
    decreases |s|
  {
    !StartsWith(s, Crlf) && (|s| > 0 ==> NoCrlf(s[1..]))
  }

  /** `s.split('\r\n')`: the pieces between the leftmost non-overlapping CRLFs. */
  function Split(s: string): (lines: seq<string>)
    ensures |lines| >= 1
    ensures |lines[0]| <= |s| && lines[0] == s[..|lines[0]|]
    decreases |s|
  {
    if s == [] then [""]
    else if StartsWith(s, Crlf) then [""] + Split(s[2..])
    else
      var rest := Split(s[1..]);
      [[s[0]] + rest[0]] + rest[1..]
  }

  /** `lines.join('\r\n')` for the non-empty arrays that `split` produces. */
  function Join(lines: seq<string>): (joined: string)
    requires |lines| >= 1
    ensures |lines[0]| <= |joined| && joined[..|lines[0]|] == lines[0]
    ensures |lines| > 1 ==> |joined| >= |lines[0]| + 2 && joined[|lines[0]|..|lines[0]| + 2] == Crlf
  {
    if |lines| == 1 then lines[0] else lines[0] + Crlf + Join(lines[1..])
  }

  /** The rewrite applied to each line. */
  function RewriteLine(line: string): (out: string)
    ensures out == line || out == line + StereoSuffix
    ensures !StartsWith(line, OpusFmtp) || Contains(line, Stereo) ==> out == line
  {
    if StartsWith(line, OpusFmtp) && !Contains(line, Stereo) then line + StereoSuffix else line
  }

  function RewriteLines(lines: seq<string>): (out: seq<string>)
    ensures |out| == |lines|
    ensures forall k :: 0 <= k < |lines| ==> out[k] == RewriteLine(lines[k])
  {
    seq(|lines|, k requires 0 <= k < |lines| => RewriteLine(lines[k]))
  }

  /** Rewriting lines is done line by line: the rewrite of a concatenation is the
      concatenation of the rewrites. */
  lemma RewriteLinesAppend(a: seq<string>, b: seq<string>)
    ensures RewriteLines(a + b) == RewriteLines(a) + RewriteLines(b)
  {
  }

  /** Rewriting a rewritten list of lines changes nothing. */
  lemma RewriteLinesIdempotent(lines: seq<string>)
    ensures RewriteLines(RewriteLines(lines)) == RewriteLines(lines)
  {
    forall k | 0 <= k < |lines| ensures RewriteLine(RewriteLine(lines[k])) == RewriteLine(lines[k]) {
      RewriteLineIdempotent(lines[k]);
    }
  }

  /** `insertStereoSupportForOpus(sdp)`; the warning it logs when Opus is absent is left out. */
  function InsertStereoSupportForOpus(sdp: string): (r: string)
    ensures !Contains(sdp, OpusRtpmap) ==> r == sdp
  {
    if !Contains(sdp, OpusRtpmap) then sdp
    else Join(RewriteLines(Split(sdp)))
  }

  // ---- split and join ----

  lemma {:induction false} JoinPrepend(c: string, lines: seq<string>)
    requires |lines| >= 1
    ensures Join([c + lines[0]] + lines[1..]) == c + Join(lines)
  {
    var l := [c + lines[0]] + lines[1..];
    assert l[1..] == lines[1..];
  }

  /** Joining the pieces of a split gives the string back. */
  lemma {:induction false} JoinSplit(s: string)
    ensures Join(Split(s)) == s
    decreases |s|
  {
    if s == [] {
    } else if StartsWith(s, Crlf) {
      JoinSplit(s[2..]);
      var l := [""] + Split(s[2..]);
      assert l[1..] == Split(s[2..]);
      assert s == Crlf + s[2..];
    } else {
      JoinSplit(s[1..]);
      var rest := Split(s[1..]);
      JoinPrepend([s[0]], rest);
      assert s == [s[0]] + s[1..];
    }
  }

  /** A piece without CRLF splits into itself. */
  lemma {:induction false} SplitNoCrlf(a: string)
    requires NoCrlf(a)
    ensures Split(a) == [a]
    decreases |a|
  {
    if a != [] {
      SplitNoCrlf(a[1..]);
      assert [a[0]] + a[1..] == a;
    }
  }

  /** A first piece without CRLF is cut exactly at the CRLF that follows it. */
  lemma {:induction false} SplitAtFirstCrlf(a: string, b: string)
    requires NoCrlf(a)
    ensures Split(a + Crlf + b) == [a] + Split(b)
    decreases |a|
  {
    var s := a + Crlf + b;
    if a == [] {
      assert s == Crlf + b && s[2..] == b;
    } else {
      assert s[0] == a[0];
      if |a| == 1 {
        assert s[1] == '\r';
      } else {
        assert s[..2] == a[..2];
      }
      assert !StartsWith(s, Crlf);
      assert s[1..] == a[1..] + Crlf + b;
      SplitAtFirstCrlf(a[1..], b);
      assert [a[0]] + a[1..] == a;
    }
  }

  /** Splitting a join of CRLF-free lines gives the lines back. */
  lemma {:induction false} SplitJoin(lines: seq<string>)
    requires |lines| >= 1
    requires forall k :: 0 <= k < |lines| ==> NoCrlf(lines[k])
    ensures Split(Join(lines)) == lines
  {
    if |lines| == 1 {
      SplitNoCrlf(lines[0]);
    } else {
      SplitJoin(lines[1..]);
      SplitAtFirstCrlf(lines[0], Join(lines[1..]));
      assert [lines[0]] + lines[1..] == lines;
    }
  }

  lemma {:induction false} NoCrlfFromStart(s: string, k: nat)
    requires NoCrlf(s) && k <= |s|
    ensures NoCrlf(s[k..])
    decreases k
  {
    if k > 0 {
      NoCrlfFromStart(s[1..], k - 1);
      assert s[1..][k - 1..] == s[k..];
    }
  }

  /** No piece of a split contains a CRLF. */
  lemma {:induction false} SplitPiecesNoCrlf(s: string)
    ensures forall k :: 0 <= k < |Split(s)| ==> NoCrlf(Split(s)[k])
    decreases |s|
  {
    if s == [] {
    } else if StartsWith(s, Crlf) {
      SplitPiecesNoCrlf(s[2..]);
      var l := Split(s);
      forall k | 1 <= k < |l| ensures NoCrlf(l[k]) {
        assert l[k] == Split(s[2..])[k - 1];
      }
    } else {
      SplitPiecesNoCrlf(s[1..]);
      var rest := Split(s[1..]);
      var first := [s[0]] + rest[0];
      assert first[1..] == rest[0];
      if |first| >= 2 {
        assert first[..2] == s[..2];
      }
      assert NoCrlf(first);
      var l := Split(s);
      forall k | 1 <= k < |l| ensures NoCrlf(l[k]) {
        assert l[k] == rest[k];
      }
    }
  }

  // ---- the per-line rewrite ----

  lemma {:induction false} ContainsSuffix(a: string, p: string)
    ensures Contains(a + p, p)
    decreases |a|
  {
    if a == [] {
      assert (a + p)[..|p|] == p;
    } else {
      ContainsSuffix(a[1..], p);
      assert (a + p)[1..] == a[1..] + p;
    }
  }

  /** Appending a CRLF-free string that does not start with '\n' keeps a line CRLF-free. */
  lemma {:induction false} NoCrlfAppend(a: string, b: string)
    requires NoCrlf(a) && NoCrlf(b)
    requires |b| > 0 && b[0] != '\n'
    ensures NoCrlf(a + b)
    decreases |a|
  {
    if a != [] {
      NoCrlfAppend(a[1..], b);
      assert (a + b)[1..] == a[1..] + b;
      if |a| == 1 {
        assert (a + b)[1] == b[0];
      } else {
        assert (a + b)[..2] == a[..2];
      }
    } else {
      assert a + b == b;
    }
  }

  /** A string without '\r' holds no CRLF. */
  lemma {:induction false} NoCarriageReturn(s: string)
    requires forall k :: 0 <= k < |s| ==> s[k] != '\r'
    ensures NoCrlf(s)
    decreases |s|
  {
    if s != [] {
      NoCarriageReturn(s[1..]);
      if |s| >= 2 {
        assert s[..2][0] == s[0];
      }
    }
  }

  lemma StartsWithAppend(a: string, b: string, p: string)
    requires StartsWith(a, p)
    ensures StartsWith(a + b, p)
  {
    assert (a + b)[..|p|] == a[..|p|];
  }

  /** The rewrite of one line: lines other than `a=fmtp:111...` and lines already
      holding `stereo=1` are untouched; the others get `;stereo=1` appended, after
      which they start the same way, hold `stereo=1`, and hold no CRLF if they held none. */
  lemma RewriteLineCases(line: string)
    ensures !StartsWith(line, OpusFmtp) ==> RewriteLine(line) == line
    ensures StartsWith(line, OpusFmtp) && Contains(line, Stereo) ==> RewriteLine(line) == line
    ensures StartsWith(line, OpusFmtp) && !Contains(line, Stereo) ==> RewriteLine(line) == line + StereoSuffix
    ensures StartsWith(RewriteLine(line), OpusFmtp) == StartsWith(line, OpusFmtp)
    ensures StartsWith(line, OpusFmtp) ==> Contains(RewriteLine(line), Stereo)
    ensures NoCrlf(line) ==> NoCrlf(RewriteLine(line))
  {
    if StartsWith(line, OpusFmtp) && !Contains(line, Stereo) {
      ContainsSuffix(line + ";", Stereo);
      assert line + StereoSuffix == (line + ";") + Stereo;
      StartsWithAppend(line, StereoSuffix, OpusFmtp);
      if NoCrlf(line) {
        NoCarriageReturn(StereoSuffix);
        NoCrlfAppend(line, StereoSuffix);
      }
    } else if !StartsWith(line, OpusFmtp) {
    }
  }

  lemma RewriteLineIdempotent(line: string)
    ensures RewriteLine(RewriteLine(line)) == RewriteLine(line)
  {
    RewriteLineCases(line);
    RewriteLineCases(RewriteLine(line));
  }

  // ---- the whole rewrite ----

  /** With Opus present, the output has exactly as many CRLF-separated lines as the
      input, and each output line is the rewrite of the input line at the same place. */
  lemma InsertStereoLines(sdp: string)
    requires Contains(sdp, OpusRtpmap)
    ensures var out := Split(InsertStereoSupportForOpus(sdp));
      |out| == |Split(sdp)| &&
      forall k :: 0 <= k < |out| ==> out[k] == RewriteLine(Split(sdp)[k])
  {
    var lines := RewriteLines(Split(sdp));
    SplitPiecesNoCrlf(sdp);
    forall k | 0 <= k < |lines| ensures NoCrlf(lines[k]) {
      RewriteLineCases(Split(sdp)[k]);
    }
    SplitJoin(lines);
  }

  /** An SDP whose every line is left alone by the rewrite is returned as it was. */
  lemma InsertStereoUnchanged(sdp: string)
    requires forall k :: 0 <= k < |Split(sdp)| ==> RewriteLine(Split(sdp)[k]) == Split(sdp)[k]
    ensures InsertStereoSupportForOpus(sdp) == sdp
  {
    assert RewriteLines(Split(sdp)) == Split(sdp);
    JoinSplit(sdp);
  }

  /** Applying the rewrite twice is the same as applying it once. */
  lemma InsertStereoIdempotent(sdp: string)
    ensures InsertStereoSupportForOpus(InsertStereoSupportForOpus(sdp)) == InsertStereoSupportForOpus(sdp)
  {
    var out := InsertStereoSupportForOpus(sdp);
    if Contains(sdp, OpusRtpmap) && Contains(out, OpusRtpmap) {
      InsertStereoLines(sdp);
      var lines := Split(out);
      forall k | 0 <= k < |lines| ensures RewriteLine(lines[k]) == lines[k] {
        RewriteLineIdempotent(Split(sdp)[k]);
      }
      InsertStereoUnchanged(out);
    }
  }
}
