// Placeholder substitution in translated strings (core/src/i18n.c:116-157).

module I18n {
  import opened Common
  import opened Strbuf
  import Utf8

  const BRACE: Byte := 0x7B
  const END_BRACE: Byte := 0x7D
  const MAX_ARGS: nat := 8

  predicate EscapedBrace(t: Bytes) { |t| >= 2 && t[0] == BRACE && t[1] == BRACE }

  predicate Placeholder(t: Bytes) { |t| >= 3 && t[0] == BRACE && 0x30 <= t[1] <= 0x39 && t[2] == END_BRACE }

  // What stands in for a placeholder: its argument, or the placeholder itself when there
  // is none. No more than MAX_ARGS arguments are looked at.
  function Filled(t: Bytes, args: seq<Option<Bytes>>): Bytes
    requires Placeholder(t)
  {
    var i := t[1] - 0x30;
    if i < |args| && i < MAX_ARGS && args[i].Some? then args[i].value else t[..3]
  }

  // The whole text, without a bound.
  function Substitute(t: Bytes, args: seq<Option<Bytes>>): Bytes {
    if t == [] then []
    else if EscapedBrace(t) then [BRACE] + Substitute(t[2..], args)
    else if Placeholder(t) then Filled(t, args) + Substitute(t[3..], args)
    else [t[0]] + Substitute(t[1..], args)
  }

  // all is what the template gives; done of it has been written up to position p.
  ghost predicate WrittenUpTo(all: Bytes, done: Bytes, t: Bytes, p: nat, args: seq<Option<Bytes>>)
    requires p <= |t|
  {
    all == done + Substitute(t[p..], args)
  }

  lemma SubstituteStep(all: Bytes, done: Bytes, t: Bytes, p: nat, args: seq<Option<Bytes>>)
    requires p < |t| && WrittenUpTo(all, done, t, p, args)
    ensures EscapedBrace(t[p..]) ==> WrittenUpTo(all, done + [BRACE], t, p + 2, args)
    ensures !EscapedBrace(t[p..]) && Placeholder(t[p..]) ==> WrittenUpTo(all, done + Filled(t[p..], args), t, p + 3, args)
    ensures !EscapedBrace(t[p..]) && !Placeholder(t[p..]) ==> WrittenUpTo(all, done + [t[p]], t, p + 1, args)
  {
    var s := t[p..];
    assert s[0] == t[p] && s[1..] == t[p + 1..];
    if |s| >= 2 {
      assert s[2..] == t[p + 2..];
    }
    if |s| >= 3 {
      assert s[3..] == t[p + 3..];
    }
  }

  // One turn of the substitution loop.
  method EmitPiece(sb: Builder, t: Bytes, p: nat, args: seq<Option<Bytes>>) returns (q: nat)
    requires sb.Valid() && p < |t|
    modifies sb, sb.buf
    ensures sb.Valid()
    ensures EscapedBrace(t[p..]) ==> q == p + 2 && sb.ideal == old(sb.ideal) + [BRACE]
    ensures !EscapedBrace(t[p..]) && Placeholder(t[p..]) ==>
      q == p + 3 && sb.ideal == old(sb.ideal) + Filled(t[p..], args)
    ensures !EscapedBrace(t[p..]) && !Placeholder(t[p..]) ==> q == p + 1 && sb.ideal == old(sb.ideal) + [t[p]]
  {
    if t[p] == BRACE && p + 1 < |t| && t[p + 1] == BRACE {
      sb.AddChar(BRACE);
      return p + 2;
    }
    if t[p] == BRACE && p + 2 < |t| && 0x30 <= t[p + 1] <= 0x39 && t[p + 2] == END_BRACE {
      var i := t[p + 1] - 0x30;
      var nargs := if |args| > MAX_ARGS then MAX_ARGS else |args|;
      if i < nargs && args[i].Some? {
        sb.Add(args[i].value);
      } else {
        assert t[p..p + 3] == t[p..][..3];
        sb.Add(t[p..p + 3]);
      }
      return p + 3;
    }
    sb.AddChar(t[p]);
    q := p + 1;
  }

  // daemoon_strf
  method Format(buf: array<Byte>, t: Bytes, args: seq<Option<Bytes>>) returns (r: Status)
    modifies buf
    ensures r == if |Substitute(t, args)| < buf.Length then Success else BufferTooSmall
    ensures r.Success? ==>
      var all := Substitute(t, args);
      buf[..|all|] == all && buf[|all|] == 0
    ensures !r.Success? && buf.Length > 0 ==>
      var all := Substitute(t, args);
      var n := Utf8.Trim(all[..buf.Length - 1]);
      buf[..n] == all[..n] && buf[n] == 0
  {
    if buf.Length == 0 {
      return BufferTooSmall;
    }
    var sb := new Builder(buf);
    Expand(sb, t, args);
    r := sb.Result();
    if r != Success {
      var n := sb.CutBack();
    }
  }

  method Expand(sb: Builder, t: Bytes, args: seq<Option<Bytes>>)
    requires sb.Valid() && sb.ideal == []
    modifies sb, sb.buf
    ensures sb.Valid() && sb.ideal == Substitute(t, args)
  {
    hide Filled;
    var p := 0;
    ghost var all := Substitute(t, args);
    assert t[0..] == t;
    while p < |t|
      invariant 0 <= p <= |t| && sb.Valid()
      invariant WrittenUpTo(all, sb.ideal, t, p, args)
    {
      SubstituteStep(all, sb.ideal, t, p, args);
      p := EmitPiece(sb, t, p, args);
    }
  }

  // ---------------------------------------------------------------------- properties

  lemma {:induction false} SubstituteRun(run: Bytes, rest: Bytes, args: seq<Option<Bytes>>)
    requires BRACE !in run
    ensures Substitute(run + rest, args) == run + Substitute(rest, args)
  {
    if run == [] {
      assert run + rest == rest;
    } else {
      assert (run + rest)[1..] == run[1..] + rest && (run + rest)[0] == run[0];
      SubstituteRun(run[1..], rest, args);
    }
  }

  // A run without braces, a placeholder and any rest: the run, the argument of that number,
  // and what the rest gives. Without such an argument the placeholder stays.
  lemma PlaceholderGives(run: Bytes, i: nat, rest: Bytes, args: seq<Option<Bytes>>)
    requires BRACE !in run && i <= 9
    ensures
      var filled := if i < |args| && i < 8 && args[i].Some? then args[i].value else Ascii("{") + [0x30 + i] + Ascii("}");
      Substitute(run + Ascii("{") + [0x30 + i] + Ascii("}") + rest, args) == run + filled + Substitute(rest, args)
  {
    var t := Ascii("{") + [0x30 + i] + Ascii("}") + rest;
    assert run + Ascii("{") + [0x30 + i] + Ascii("}") + rest == run + t;
    SubstituteRun(run, t, args);
    assert t[3..] == rest && t[..3] == Ascii("{") + [0x30 + i] + Ascii("}");
  }

  // Any other opening brace stays as it is, and a doubled one becomes one.
  lemma BraceGives(run: Bytes, rest: Bytes, args: seq<Option<Bytes>>)
    requires BRACE !in run
    ensures Substitute(run + Ascii("{{") + rest, args) == run + Ascii("{") + Substitute(rest, args)
    ensures (rest == [] || rest[0] != BRACE) && !(|rest| >= 2 && 0x30 <= rest[0] <= 0x39 && rest[1] == END_BRACE) ==>
      Substitute(run + Ascii("{") + rest, args) == run + Ascii("{") + Substitute(rest, args)
  {
    var t, u := Ascii("{{") + rest, Ascii("{") + rest;
    assert run + Ascii("{{") + rest == run + t && run + Ascii("{") + rest == run + u;
    SubstituteRun(run, t, args);
    SubstituteRun(run, u, args);
    assert t[2..] == rest && u[1..] == rest;
  }

  predicate ValidArgs(args: seq<Option<Bytes>>) {
    forall i :: 0 <= i < |args| && args[i].Some? ==> Utf8.Valid(args[i].value)
  }

  lemma FilledIsValid(t: Bytes, args: seq<Option<Bytes>>)
    requires Placeholder(t) && ValidArgs(args)
    ensures Utf8.Valid(Filled(t, args))
  {
    Utf8.AsciiIsValid(t[..3]);
  }

  // The text starts with a character that is copied as it is.
  lemma CopiedCharIsValid(t: Bytes, args: seq<Option<Bytes>>)
    requires Utf8.CharLen(t) > 0 && t[0] >= 0x80 && Utf8.Valid(Substitute(t[Utf8.CharLen(t)..], args))
    ensures Utf8.Valid(Substitute(t, args))
  {
    var n := Utf8.CharLen(t);
    var rest := Substitute(t[n..], args);
    assert t == t[..n] + t[n..];
    SubstituteRun(t[..n], t[n..], args);
    Utf8.CharLenPrefix(t, n);
    assert t[..n][n..] == [];
    hide Substitute;
    Utf8.ValidConcat(t[..n], rest);
  }

  // A valid template and valid arguments give valid text.
  lemma {:induction false} SubstituteIsValid(t: Bytes, args: seq<Option<Bytes>>)
    requires Utf8.Valid(t) && ValidArgs(args)
    ensures Utf8.Valid(Substitute(t, args))
    decreases |t|
  {
    if t == [] {
    } else if t[0] >= 0x80 {
      SubstituteIsValid(t[Utf8.CharLen(t)..], args);
      CopiedCharIsValid(t, args);
    } else {
      hide Filled, Utf8.Valid, Utf8.CharLen;
      var n := if EscapedBrace(t) then 2 else if Placeholder(t) then 3 else 1;
      var piece := if EscapedBrace(t) then [BRACE] else if Placeholder(t) then Filled(t, args) else [t[0]];
      Utf8.DropAscii(t, n);
      SubstituteIsValid(t[n..], args);
      if !EscapedBrace(t) && Placeholder(t) {
        FilledIsValid(t, args);
      } else {
        Utf8.AsciiIsValid(piece);
      }
      Utf8.ValidConcat(piece, Substitute(t[n..], args));
    }
  }

  // So a full buffer is left with the longest valid prefix of the whole text that fits.
  lemma FormatKeepsLongestFit(t: Bytes, args: seq<Option<Bytes>>, cap: nat)
    requires Utf8.Valid(t) && ValidArgs(args) && 0 < cap <= |Substitute(t, args)|
    ensures Utf8.LongestFit(Substitute(t, args), cap - 1, Utf8.Trim(Substitute(t, args)[..cap - 1]))
  {
    hide Substitute, Utf8.Trim, Utf8.LongestFit, Utf8.Valid;
    SubstituteIsValid(t, args);
    Utf8.CutIsLongestFit(Substitute(t, args), cap - 1);
    Utf8.TrimFindsTheCut(Substitute(t, args), cap - 1);
  }

  // Doubling the braces of a text protects all of it from substitution.
  function Protect(s: Bytes): Bytes {
    if s == [] then [] else (if s[0] == BRACE then [BRACE, BRACE] else [s[0]]) + Protect(s[1..])
  }

  lemma {:induction false} ProtectedIsLiteral(s: Bytes, args: seq<Option<Bytes>>)
    ensures Substitute(Protect(s), args) == s
  {
    if s != [] {
      var head, rest := if s[0] == BRACE then [BRACE, BRACE] else [s[0]], Protect(s[1..]);
      ProtectedIsLiteral(s[1..], args);
      assert Protect(s) == head + rest && (head + rest)[|head|..] == rest;
      assert s == [s[0]] + s[1..];
    }
  }
}
