/** Domain names: the encoder of REGISTER_CNAME_RECORD (layers/L7/DNS.h:37-60), the decoding and
    lowercasing loops of `DNS::on_recv` (layers/L7/DNS.cpp:20-43), and how they fit together
    (sections 2.3.3 and 3.1 of RFC 1035). */
module DnsName {
  import opened Bytes
  import opened Rfc

  const DOT: byte := 46  // '.'

  /** A domain name: its labels, then the root. */
  datatype Name = Root | Label(text: seq<byte>, rest: Name)

  /** Each length fits its octet. */
  predicate Short(name: Name) {
    name.Label? ==> |name.text| <= 255 && Short(name.rest)
  }

  predicate NonEmptyLabels(name: Name) {
    name.Label? ==> name.text != [] && NonEmptyLabels(name.rest)
  }

  /** The wire form: each label after its length, and a zero. */
  function Wire(name: Name): seq<byte>
    requires Short(name)
  {
    match name
    case Root => [0]
    case Label(text, rest) => [|text|] + text + Wire(rest)
  }

  datatype Reading = Endless | Read(name: Name, length: nat)

  /** The name a wire form spells, and its length, if it ends inside `s`. */
  function Unwire(s: seq<byte>): (r: Reading)
    ensures r.Read? ==> 1 <= r.length <= |s|
  {
    if s == [] then Endless
    else if s[0] == 0 then Read(Root, 1)
    else if |s| < 1 + s[0] as int then Endless
    else
      match Unwire(s[1 + s[0]..])
      case Endless => Endless
      case Read(rest, n) => Read(Label(s[1..1 + s[0]], rest), 1 + s[0] + n)
  }

  /** Every label followed by a dot. */
  function Dotted(name: Name): seq<byte> {
    match name
    case Root => []
    case Label(text, rest) => text + [DOT] + Dotted(rest)
  }

  /** The labels with dots between them. */
  function Join(name: Name): (s: seq<byte>)
    requires name.Label?
  {
    if name.rest.Root? then name.text else name.text + [DOT] + Join(name.rest)
  }

  lemma {:induction false} DottedIsJoin(name: Name)
    requires name.Label?
    ensures Dotted(name) == Join(name) + [DOT]
  {
    if name.rest.Label? {
      DottedIsJoin(name.rest);
      Associate(name.text, [DOT], Join(name.rest), [DOT]);
      assert name.text + [DOT] + (Join(name.rest) + [DOT]) == name.text + [DOT] + Join(name.rest) + [DOT];
    }
  }

  function FirstDot(s: seq<byte>): (d: nat)
    ensures d <= |s|
  {
    if s == [] || s[0] == DOT then 0 else 1 + FirstDot(s[1..])
  }

  /** The pieces of a dotted name. */
  function Split(s: seq<byte>): (name: Name)
    ensures name.Label?
    decreases |s|
  {
    var d := FirstDot(s);
    Label(s[..d], if d < |s| then Split(s[d + 1..]) else Root)
  }

  // ----- C strings

  /** What a C string stored at the start of `s` says. */
  function CString(s: seq<byte>): (r: seq<byte>)
    ensures r <= s && 0 !in r && (0 in s ==> |r| < |s| && s[|r|] == 0)
  {
    if s == [] || s[0] == 0 then [] else [s[0]] + CString(s[1..])
  }

  function LowerByte(b: byte): byte {
    if 'A' as int <= b <= 'Z' as int then b + 32 else b
  }

  function Lower(s: seq<byte>): (r: seq<byte>)
    ensures |r| == |s|
  {
    seq(|s|, i requires 0 <= i < |s| => LowerByte(s[i]))
  }

  // ----- the encoder

  lemma {:induction false} FirstDotMeans(s: seq<byte>)
    ensures var d := FirstDot(s); DOT !in s[..d] && (d < |s| ==> s[d] == DOT)
  {
    if s != [] && s[0] != DOT {
      FirstDotMeans(s[1..]);
      assert s[..FirstDot(s)] == [s[0]] + s[1..][..FirstDot(s[1..])];
    }
  }

  lemma {:induction false} FirstDotIs(s: seq<byte>, d: nat)
    requires d <= |s| && DOT !in s[..d] && (d < |s| ==> s[d] == DOT)
    ensures FirstDot(s) == d
  {
    if d > 0 {
      assert s[0] == s[..d][0] && s[1..][..d - 1] == s[..d][1..];
      FirstDotIs(s[1..], d - 1);
    }
  }

  /** No piece of the name is longer than 255 bytes. */
  predicate ShortName(s: seq<byte>)
    decreases |s|
  {
    var d := FirstDot(s);
    d <= 255 && (d < |s| ==> ShortName(s[d + 1..]))
  }

  /** The wire form of a name, straight from its text. */
  function NameWire(s: seq<byte>): seq<byte>
    decreases |s|
  {
    var d := FirstDot(s);
    [d % 0x100] + s[..d] + (if d < |s| then NameWire(s[d + 1..]) else [0])
  }

  lemma FirstLabelShort(s: seq<byte>)
    ensures var d := FirstDot(s); ShortName(s) <==> d <= 255 && (d < |s| ==> ShortName(s[d + 1..]))
  {
    hide FirstDot;
  }

  lemma FirstLabelWire(s: seq<byte>)
    ensures var d := FirstDot(s);
            NameWire(s) == [d % 0x100] + s[..d] + (if d < |s| then NameWire(s[d + 1..]) else [0])
  {
    hide FirstDot;
  }

  lemma {:induction false} NameWireIsWire(s: seq<byte>)
    ensures ShortName(s) <==> Short(Split(s))
    ensures ShortName(s) ==> NameWire(s) == Wire(Split(s)) && |NameWire(s)| == |s| + 2
    decreases |s|
  {
    hide *;
    var d := FirstDot(s);
    FirstLabelShort(s);
    FirstLabelWire(s);
    FirstLabelSplit(s);
    if d < |s| {
      NameWireIsWire(s[d + 1..]);
    }
  }

  lemma FirstLabelSplit(s: seq<byte>)
    ensures var d, name := FirstDot(s), Split(s);
            && (Short(name) <==> d <= 255 && (d < |s| ==> Short(Split(s[d + 1..]))))
            && (Short(name) ==> Wire(name) == [d] + s[..d] + (if d < |s| then Wire(Split(s[d + 1..])) else [0]))
  {
    hide FirstDot, Split;
    SplitUnfolds(s);
    assert Wire(Root) == [0];
  }

  lemma SplitUnfolds(s: seq<byte>)
    ensures var d := FirstDot(s); Split(s) == Label(s[..d], if d < |s| then Split(s[d + 1..]) else Root)
  {
    hide FirstDot;
  }

  lemma LabelEnds(cname: seq<byte>, start: nat, i: nat)
    requires start <= i <= |cname| && DOT !in cname[start..i] && (i < |cname| ==> cname[i] == DOT)
    ensures FirstDot(cname[start..]) == i - start
    ensures ShortName(cname[start..]) <==> i - start <= 255 && (i < |cname| ==> ShortName(cname[i + 1..]))
    ensures NameWire(cname[start..]) ==
            [(i - start) % 0x100] + cname[start..i] + (if i < |cname| then NameWire(cname[i + 1..]) else [0])
  {
    hide FirstDot, NameWire, ShortName;
    TailParts(cname, start, i);
    FirstDotIs(cname[start..], i - start);
    FirstLabelShort(cname[start..]);
    FirstLabelWire(cname[start..]);
  }

  /** What stands in the tail of `s` from `at` on, up to, at and behind index `i` of `s`. */
  lemma TailParts(s: seq<byte>, at: nat, i: nat)
    requires at <= i <= |s|
    ensures s[at..][..i - at] == s[at..i]
    ensures i < |s| ==> s[at..][i - at] == s[i] && s[at..][i - at + 1..] == s[i + 1..]
  {
  }

  lemma Associate(a: seq<byte>, b: seq<byte>, c: seq<byte>, d: seq<byte>)
    ensures a + (b + c + d) == a + b + c + d
  {
  }

  /** `front` has been written for the labels before `start`: their wire form if they are short. */
  predicate WrittenSoFar(cname: seq<byte>, front: seq<byte>, start: nat) {
    && |front| <= start <= |cname|
    && (ShortName(cname) <==> |front| == start && ShortName(cname[start..]))
    && (ShortName(cname) ==> front + NameWire(cname[start..]) == NameWire(cname))
  }

  /** Writing the label that ends at `i`, its length `n` counted modulo 256. */
  lemma LabelWritten(cname: seq<byte>, front: seq<byte>, start: nat, i: nat, n: byte, front': seq<byte>)
    requires WrittenSoFar(cname, front, start) && start <= i <= |cname| && n == (i - start) % 0x100
    requires DOT !in cname[start..i] && (i < |cname| ==> cname[i] == DOT)
    requires |front'| == |front| + n + 1
    requires |front| == start && n == i - start ==> front' == front + [n] + cname[start..i]
    ensures i < |cname| ==> WrittenSoFar(cname, front', i + 1)
    ensures i == |cname| ==> |front'| <= |cname| + 1 && (|front'| == |cname| + 1 <==> ShortName(cname))
    ensures i == |cname| && ShortName(cname) ==> front' + [0] == NameWire(cname)
  {
    LabelEnds(cname, start, i);
    LengthFits(i - start);
    hide FirstDot, NameWire, ShortName;
    if ShortName(cname) {
      Associate(front, [n], cname[start..i], if i < |cname| then NameWire(cname[i + 1..]) else [0]);
    }
  }

  lemma LengthFits(d: nat)
    ensures d % 0x100 <= d && (d % 0x100 == d <==> d <= 255)
  {
  }

  /** What the macro does when it meets the end of a label: write its counted length and as many
      bytes, which is the label unless the count has wrapped. */
  method FinishLabel(cname: seq<byte>, data: array<byte>, ptr: nat, i: nat, l: byte, ghost start: nat)
    requires ptr <= start <= i <= |cname| && l == (i - start) % 256 && data.Length == |cname| + 2
    requires WrittenSoFar(cname, data[..ptr], start)
    requires DOT !in cname[start..i] && (i < |cname| ==> cname[i] == DOT)
    modifies data
    ensures ptr + l + 1 <= i + 1
    ensures i < |cname| ==> WrittenSoFar(cname, data[..ptr + l + 1], i + 1)
    ensures i == |cname| ==> (ptr + l == |cname| <==> ShortName(cname))
    ensures i == |cname| && ShortName(cname) ==> data[..ptr + l + 1] + [0] == NameWire(cname)
  {
    hide *;
    ghost var front := data[..ptr];
    CopyInto(data, ptr, [l]);
    CopyInto(data, ptr + 1, cname[i - l..i]);
    LabelWritten(cname, front, start, i, l, data[..ptr + l + 1]);
  }

  /** The length octet is written back once the label has been counted; counting wraps at 256.  The
      wire form comes out, filling the buffer exactly, if and only if no label is longer than that. */
  method Encode(cname: seq<byte>) returns (data: array<byte>, end: nat)
    requires 0 !in cname
    ensures fresh(data) && data.Length == |cname| + 2
    ensures end + 1 == |cname| + 2 <==> Short(Split(cname))
    ensures Short(Split(cname)) ==> data[..] == Wire(Split(cname))
  {
    hide *;
    NameWireIsWire(cname);
    NothingWritten(cname);
    data := new byte[|cname| + 2];
    var l: byte, ptr: nat, i: nat := 0, 0, 0;
    ghost var start: nat := 0;  // where the current label begins
    assert data[..0] == [];
    while true
      invariant ptr <= start <= i <= |cname| && l == (i - start) % 256 && DOT !in cname[start..i]
      invariant WrittenSoFar(cname, data[..ptr], start)
      decreases |cname| - i
    {
      if i == |cname| || cname[i] == DOT {
        FinishLabel(cname, data, ptr, i, l, start);
        ptr := ptr + l + 1;
        l := 0;
        if i == |cname| {
          data[ptr] := 0;
          end := ptr;
          assert ptr + 1 == data.Length ==> data[..] == data[..ptr] + [0];
          return;
        }
        i := i + 1;
        start := i;
        continue;
      }
      LabelGoesOn(cname, start, i);
      l := (l + 1) % 256;
      i := i + 1;
    }
  }

  lemma LabelGoesOn(cname: seq<byte>, start: nat, i: nat)
    requires start <= i < |cname| && DOT !in cname[start..i] && cname[i] != DOT
    ensures DOT !in cname[start..i + 1] && ((i - start) % 256 + 1) % 256 == (i + 1 - start) % 256
  {
  }

  lemma NothingWritten(cname: seq<byte>)
    ensures WrittenSoFar(cname, [], 0)
  {
    hide ShortName, NameWire;
    assert cname[0..] == cname;
  }

  // ----- the decoder

  /** Where the decoding loop stands: up to `at` everything has gone into `front`, `left` is still to be
      read, and in the end the dotted form will be `whole`. */
  predicate ReadSoFar(msg: seq<byte>, at: nat, n: nat, front: seq<byte>, left: Name, whole: seq<byte>) {
    && |front| == at < n <= |msg|
    && Unwire(msg[at..]) == Read(left, n - at)
    && front + Dotted(left) == whole
  }

  lemma ReadLabel(msg: seq<byte>, at: nat, n: nat, front: seq<byte>, left: Name, whole: seq<byte>)
    requires ReadSoFar(msg, at, n, front, left, whole)
    ensures at < n <= |msg|
    ensures if msg[at] == 0 then at + 1 == n && front == whole
            else
              var l: nat := msg[at];
              && at + 1 + l < n && left.Label?
              && ReadSoFar(msg, at + 1 + l, n, front + msg[at + 1..at + 1 + l] + [DOT], left.rest, whole)
  {
    hide Unwire;
    FirstOfReading(msg[at..]);
    var l: nat := msg[at];
    if l != 0 {
      assert msg[at..][1..1 + l] == msg[at + 1..at + 1 + l] && msg[at..][1 + l..] == msg[at + 1 + l..];
      Associate(front, left.text, [DOT], Dotted(left.rest));
    }
  }

  lemma FirstOfReading(s: seq<byte>)
    requires Unwire(s).Read?
    ensures s[0] == 0 ==> Unwire(s) == Read(Root, 1)
    ensures s[0] != 0 ==>
              var r, l: nat := Unwire(s), s[0];
              && 1 + l < |s| && r.name.Label? && r.name.text == s[1..1 + l]
              && Unwire(s[1 + l..]) == Read(r.name.rest, r.length - 1 - l)
  {
    if s[0] != 0 {
      assert Unwire(s[1 + s[0]..]).Read?;
    }
  }

  /** The body of the loop: the label is copied and a dot put after it. */
  method CopyLabel(text: seq<byte>, queryName: array<byte>, ptr: nat)
    requires ptr + |text| + 1 <= queryName.Length
    modifies queryName
    ensures queryName[..ptr + |text| + 1] == old(queryName[..ptr]) + text + [DOT]
  {
    CopyInto(queryName, ptr, text);
    CopyInto(queryName, ptr + |text|, [DOT]);
  }

  /** The last dot becomes the terminating zero. */
  method EndName(queryName: array<byte>, ptr: nat, ghost name: Name)
    requires ptr <= queryName.Length && name.Label? && queryName[..ptr] == Dotted(name)
    modifies queryName
    ensures queryName[..ptr] == Join(name) + [0]
  {
    DottedIsJoin(name);
    queryName[ptr - 1] := 0;
  }

  /** The decoding loop: labels are copied out of `msg`, each followed by a dot, until the zero octet. */
  method CopyLabels(msg: seq<byte>, queryName: array<byte>, ghost name: Name, ghost n: nat)
    returns (ptr: nat, dataPtr: nat)
    requires ReadSoFar(msg, 0, n, [], name, Dotted(name)) && n - 1 <= queryName.Length
    modifies queryName
    ensures ptr == dataPtr == n - 1 && queryName[..ptr] == Dotted(name)
  {
    hide *;
    ghost var left, whole := name, Dotted(name);
    ptr, dataPtr := 0, 0;
    ReadLabel(msg, 0, n, [], name, whole);
    assert queryName[..0] == [];
    while msg[dataPtr] != 0
      invariant ptr == dataPtr < n <= |msg|
      invariant ReadSoFar(msg, dataPtr, n, queryName[..ptr], left, whole)
      decreases n - dataPtr
    {
      ReadLabel(msg, dataPtr, n, queryName[..ptr], left, whole);
      var l: nat := msg[dataPtr];
      CopyLabel(msg[dataPtr + 1..dataPtr + 1 + l], queryName, ptr);
      ptr := ptr + l + 1;
      dataPtr := dataPtr + l + 1;
      left := left.rest;
    }
    ReadLabel(msg, dataPtr, n, queryName[..ptr], left, whole);
  }

  /** Decodes the name at the start of `msg` into a C string; reading stops at its zero octet.  The
      source relies on the name ending inside the packet, having a label, and fitting the buffer. */
  method Decode(msg: seq<byte>, queryName: array<byte>) returns (ptr: nat, dataPtr: nat)
    requires Unwire(msg).Read? && Unwire(msg).name.Label?
    requires Unwire(msg).length - 1 <= queryName.Length
    modifies queryName
    ensures ptr == dataPtr == Unwire(msg).length - 1
    ensures queryName[..ptr] == Join(Unwire(msg).name) + [0]
  {
    ghost var name, n := Unwire(msg).name, Unwire(msg).length;
    assert msg[0..] == msg && [] + Dotted(name) == Dotted(name);
    ptr, dataPtr := CopyLabels(msg, queryName, name, n);
    EndName(queryName, ptr, name);
  }

  /** The lowercasing loop, up to the terminating zero. */
  method LowerInPlace(queryName: array<byte>)
    requires 0 in queryName[..]
    modifies queryName
    ensures CString(queryName[..]) == Lower(CString(old(queryName[..])))
    ensures NoCapitals(CString(queryName[..])) && SameText(CString(old(queryName[..])), CString(queryName[..]))
  {
    hide SameText, NoCapitals;
    ghost var was := queryName[..];
    ghost var name := CString(was);
    var i := 0;
    while queryName[i] != 0
      invariant i <= |name|
      invariant forall j :: 0 <= j < i ==> queryName[j] == LowerByte(was[j])
      invariant forall j :: i <= j < queryName.Length ==> queryName[j] == was[j]
      decreases |name| - i
    {
      if 'A' as int <= queryName[i] <= 'Z' as int {
        queryName[i] := queryName[i] + 32;
      }
      i := i + 1;
    }
    CStringIs(queryName[..], Lower(name));
    LowerMeans(name, []);
  }

  lemma {:induction false} CStringIs(s: seq<byte>, r: seq<byte>)
    requires r <= s && 0 !in r && |r| < |s| && s[|r|] == 0
    ensures CString(s) == r
  {
    if r != [] {
      CStringIs(s[1..], r[1..]);
    }
  }

  // ----- round trips

  /** No label contains a dot or a zero octet. */
  predicate Clean(name: Name) {
    name.Label? ==> DOT !in name.text && 0 !in name.text && Clean(name.rest)
  }

  /** The decoder reads back what the encoder writes, whatever follows it. */
  lemma {:induction false} UnwireWire(name: Name, rest: seq<byte>)
    requires Short(name) && NonEmptyLabels(name)
    ensures Unwire(Wire(name) + rest) == Read(name, |Wire(name)|)
  {
    hide Wire, Unwire;
    if name.Root? {
      UnwireRoot(rest);
    } else {
      var s, l := Wire(name) + rest, |name.text|;
      UnwireWire(name.rest, rest);
      WireOfLabel(name);
      assert s[1..1 + l] == Wire(name)[1..1 + l] == name.text;
      assert s[1 + l..] == Wire(name)[1 + l..] + rest == Wire(name.rest) + rest;
      UnwireLabel(s);
    }
  }

  lemma UnwireRoot(rest: seq<byte>)
    ensures Unwire(Wire(Root) + rest) == Read(Root, |Wire(Root)|)
  {
  }

  lemma UnwireLabel(s: seq<byte>)
    requires s != [] && s[0] != 0 && 1 + s[0] as int <= |s| && Unwire(s[1 + s[0]..]).Read?
    ensures var rest := Unwire(s[1 + s[0]..]);
            Unwire(s) == Read(Label(s[1..1 + s[0]], rest.name), 1 + s[0] + rest.length)
  {
  }

  lemma WireOfLabel(name: Name)
    requires name.Label? && Short(name)
    ensures Short(name.rest) && |name.text| <= 255
    ensures Wire(name) == [|name.text|] + name.text + Wire(name.rest)
    ensures var w, l := Wire(name), |name.text|;
            |w| == 1 + l + |Wire(name.rest)| && w[0] == l && w[1..1 + l] == name.text && w[1 + l..] == Wire(name.rest)
  {
    assert Wire(name) == [|name.text|] + name.text + Wire(name.rest);
    hide Wire;
  }

  /** What the decoder reads is a wire form of non-empty labels. */
  lemma {:induction false} WireUnwire(s: seq<byte>)
    requires Unwire(s).Read?
    ensures var r := Unwire(s); Short(r.name) && NonEmptyLabels(r.name) && s[..r.length] == Wire(r.name)
  {
    if s[0] != 0 {
      var l: nat := s[0];
      var tail := s[1 + l..];
      WireUnwire(tail);
      PrefixParts(s, l, Unwire(tail).length);
    }
  }

  lemma PrefixParts(s: seq<byte>, l: nat, n: nat)
    requires 1 + l + n <= |s|
    ensures s[..1 + l + n] == [s[0]] + s[1..1 + l] + s[1 + l..][..n]
  {
  }

  lemma {:induction false} SplitClean(s: seq<byte>)
    requires 0 !in s
    ensures Clean(Split(s))
    decreases |s|
  {
    FirstDotMeans(s);
    if FirstDot(s) < |s| {
      SplitClean(s[FirstDot(s) + 1..]);
    }
  }

  lemma {:induction false} JoinSplit(s: seq<byte>)
    ensures Join(Split(s)) == s
    decreases |s|
  {
    var d := FirstDot(s);
    FirstDotMeans(s);
    if d < |s| {
      JoinSplit(s[d + 1..]);
      assert s == s[..d] + [DOT] + s[d + 1..];
    } else {
      assert s[..d] == s;
    }
  }

  lemma {:induction false} SplitJoin(name: Name)
    requires name.Label? && Clean(name)
    ensures Split(Join(name)) == name && 0 !in Join(name)
  {
    var s, d := Join(name), |name.text|;
    assert s[..d] == name.text;
    FirstDotIs(s, d);
    if name.rest.Label? {
      SplitJoin(name.rest);
      assert s[d + 1..] == Join(name.rest);
    }
  }

  /** The octets of a text of 7-bit characters. */
  predicate IsText(s: seq<byte>, text: string) {
    |s| == |text| && forall i :: 0 <= i < |s| ==> s[i] as char == text[i]
  }

  /** The pieces of a name are what stands between its full stops. */
  lemma NameOfText(s: seq<byte>, first: string, rest: string)
    requires IsText(s, first + "." + rest) && '.' !in first
    ensures var a, b := s[..|first|], s[|first| + 1..];
            IsText(a, first) && IsText(b, rest) && Split(a) == Label(a, Root) && Split(s) == Label(a, Split(b))
  {
    var a, b, text := s[..|first|], s[|first| + 1..], first + "." + rest;
    assert forall i :: 0 <= i < |first| ==> text[i] == first[i] && first[i] in first;
    assert forall i :: 0 <= i < |rest| ==> text[|first| + 1 + i] == rest[i];
    assert forall i :: 0 <= i < |first| ==> a[i] as char == first[i];
    assert s[|first|] as char == text[|first|] == '.';
    hide IsText;
    FirstDotIs(s, |first|);
    FirstDotIs(a, |a|);
    assert a[..|a|] == a;
  }

  /** A wire form reads back as the name it was made from exactly when no label is empty: an empty one
      is taken for the end. */
  lemma ReadsBack(name: Name, rest: seq<byte>)
    requires Short(name)
    ensures Unwire(Wire(name) + rest) == Read(name, |Wire(name)|) <==> NonEmptyLabels(name)
  {
    if NonEmptyLabels(name) {
      UnwireWire(name, rest);
    }
    if Unwire(Wire(name) + rest).Read? {
      WireUnwire(Wire(name) + rest);
    }
  }

  /** Encoding a name of short pieces and decoding the bytes: the wire form is two bytes longer, and it
      is read to its end and spells the same name, whatever follows it in the packet, exactly when no
      piece is empty.  The C string of the pieces is the name in any case. */
  lemma {:induction false} EncodeThenDecode(cname: seq<byte>, rest: seq<byte>, junk: seq<byte>)
    requires 0 !in cname && Short(Split(cname))
    ensures var wire := Wire(Split(cname));
            && |wire| == |cname| + 2
            && (Unwire(wire + rest) == Read(Split(cname), |wire|) <==> NonEmptyLabels(Split(cname)))
            && CString(Join(Split(cname)) + [0] + junk) == cname
  {
    NameWireIsWire(cname);
    ReadsBack(Split(cname), rest);
    JoinSplit(cname);
    CStringIs(cname + [0] + junk, cname);
  }

  /** The last label is followed by one more, empty. */
  function WithEmptyLabel(name: Name): Name {
    if name.Root? then Label([], Root) else Label(name.text, WithEmptyLabel(name.rest))
  }

  /** A trailing dot: for every name, "test.example.com" among them, the encoder given the name and a dot
      writes the wire form of the name and a second zero octet, which a reader leaves unread. */
  lemma TrailingDot(cname: seq<byte>, rest: seq<byte>)
    requires 0 !in cname && Short(Split(cname)) && NonEmptyLabels(Split(cname))
    ensures var dotted := Split(cname + [DOT]);
            && Short(dotted) && !NonEmptyLabels(dotted)
            && Wire(dotted) == Wire(Split(cname)) + [0]
            && Unwire(Wire(dotted) + rest) == Read(Split(cname), |Wire(dotted)| - 1)
  {
    hide *;
    SplitDotted(cname);
    EmptyLabelOnWire(Split(cname));
    UnwireWire(Split(cname), [0] + rest);
    assert Wire(Split(cname)) + [0] + rest == Wire(Split(cname)) + ([0] + rest);
  }

  lemma {:induction false} SplitDotted(s: seq<byte>)
    ensures Split(s + [DOT]) == WithEmptyLabel(Split(s))
    decreases |s|
  {
    var d, t := FirstDot(s), s + [DOT];
    FirstDotMeans(s);
    assert t[..d] == s[..d];
    FirstDotIs(t, d);
    if d < |s| {
      SplitDotted(s[d + 1..]);
      assert t[d + 1..] == s[d + 1..] + [DOT];
    } else {
      assert t[d + 1..] == [];
    }
  }

  lemma {:induction false} EmptyLabelOnWire(name: Name)
    requires Short(name)
    ensures Short(WithEmptyLabel(name)) && !NonEmptyLabels(WithEmptyLabel(name))
    ensures Wire(WithEmptyLabel(name)) == Wire(name) + [0]
  {
    if name.Label? {
      EmptyLabelOnWire(name.rest);
      assert [|name.text|] + name.text + (Wire(name.rest) + [0]) == [|name.text|] + name.text + Wire(name.rest) + [0];
    }
  }

  /** Decoding a well-formed wire name and encoding the C string gives the same bytes exactly when no
      label contains a dot or a zero octet. */
  lemma {:induction false} DecodeThenEncode(name: Name)
    requires name.Label? && Short(name) && NonEmptyLabels(name)
    ensures var again := Split(CString(Join(name) + [0]));
            Short(again) && Wire(again) == Wire(name) <==> Clean(name)
  {
    var text := CString(Join(name) + [0]);
    SplitClean(text);
    if Clean(name) {
      SplitJoin(name);
      CStringIs(Join(name) + [0], Join(name));
    } else if Short(Split(text)) && Wire(Split(text)) == Wire(name) {
      WireInjective(name, Split(text));
    }
  }

  lemma {:induction false} WireInjective(a: Name, b: Name)
    requires Short(a) && NonEmptyLabels(a) && Short(b) && Wire(a) == Wire(b)
    ensures a == b
  {
    if a.Label? && b.Label? {
      var l := |a.text|;
      assert Wire(a)[0] == l && Wire(b)[0] == |b.text|;
      assert Wire(a)[1..1 + l] == a.text && Wire(b)[1..1 + l] == b.text;
      assert Wire(a)[1 + l..] == Wire(a.rest) && Wire(b)[1 + l..] == Wire(b.rest);
      WireInjective(a.rest, b.rest);
    } else {
      WireLength(a);
      WireLength(b);
    }
  }

  lemma {:induction false} WireLength(a: Name)
    requires Short(a)
    ensures |Wire(a)| >= 1 && (a.Label? ==> |Wire(a)| > 1)
  {
    if a.Label? {
      WireLength(a.rest);
    }
  }

  // ----- letter case

  /** The names differ in the case of ASCII letters at most (section 2.3.3 of RFC 1035). */
  predicate SameIgnoringCase(a: Name, b: Name) {
    match a
    case Root => b.Root?
    case Label(text, rest) => b.Label? && SameText(text, b.text) && SameIgnoringCase(rest, b.rest)
  }

  /** Lowering brings two texts together exactly if they are the same in this sense, and leaves no capital
      in them and nothing but case changed. */
  lemma LowerMeans(s: seq<byte>, r: seq<byte>)
    ensures Lower(s) == Lower(r) <==> SameText(s, r)
    ensures NoCapitals(Lower(s)) && SameText(s, Lower(s))
    ensures NoCapitals(s) <==> Lower(s) == s
  {
    assert |s| == |Lower(s)| && |r| == |Lower(r)|;
    assert forall i :: 0 <= i < |s| ==> Lower(s)[i] == LowerByte(s[i]);
    assert forall i :: 0 <= i < |r| ==> Lower(r)[i] == LowerByte(r[i]);
    hide Lower;
    if SameText(s, r) {
      assert forall i :: 0 <= i < |s| ==> SameLetter(s[i], r[i]);
      assert Lower(s) == Lower(r);
    }
    if Lower(s) == Lower(r) {
      forall i | 0 <= i < |s|
        ensures SameLetter(s[i], r[i])
      {
        assert Lower(s)[i] == Lower(r)[i];
      }
    }
    if Lower(s) == s {
      assert forall i :: 0 <= i < |s| ==> s[i] == Lower(s)[i];
    }
  }

  lemma {:induction false} CaseOfJoin(a: Name, b: Name)
    requires a.Label? && SameIgnoringCase(a, b)
    ensures Lower(Join(a)) == Lower(Join(b))
  {
    LowerMeans(a.text, b.text);
    hide Lower, SameText;
    if a.rest.Label? {
      CaseOfJoin(a.rest, b.rest);
      LowerConcat(a.text, Join(a.rest));
      LowerConcat(b.text, Join(b.rest));
    }
  }

  lemma LowerConcat(s: seq<byte>, r: seq<byte>)
    ensures Lower(s + [DOT] + r) == Lower(s) + [DOT] + Lower(r)
  {
  }

  lemma {:induction false} CaseOfCString(s: seq<byte>, r: seq<byte>)
    requires Lower(s) == Lower(r)
    ensures Lower(CString(s)) == Lower(CString(r))
  {
    assert |s| == |Lower(s)| == |Lower(r)| == |r|;
    if s != [] {
      LowerFirst(s);
      LowerFirst(r);
      if s[0] != 0 {
        LowerCons(s[0], CString(s[1..]));
        LowerCons(r[0], CString(r[1..]));
        hide Lower;
        CaseOfCString(s[1..], r[1..]);
      }
    }
  }

  lemma LowerCons(b: byte, s: seq<byte>)
    ensures Lower([b] + s) == [LowerByte(b)] + Lower(s)
  {
  }

  lemma LowerFirst(s: seq<byte>)
    requires s != []
    ensures Lower(s)[0] == LowerByte(s[0]) && Lower(s)[1..] == Lower(s[1..])
  {
  }

  /** Case makes no difference to the key a query is looked up under. */
  lemma {:induction false} CaseOfKey(a: Name, b: Name)
    requires a.Label? && SameIgnoringCase(a, b)
    ensures Lower(CString(Join(a) + [0])) == Lower(CString(Join(b) + [0]))
  {
    CaseOfJoin(a, b);
    LowerAppend(Join(a));
    LowerAppend(Join(b));
    CaseOfCString(Join(a) + [0], Join(b) + [0]);
  }

  lemma LowerAppend(s: seq<byte>)
    ensures Lower(s + [0]) == Lower(s) + [0]
  {
  }

  /** The name a decoded name is taken for: its pieces between dots, up to a zero octet.  It is the name
      itself exactly when that has a label and is clean. */
  function Printed(name: Name): (r: Name)
    requires name.Label?
    ensures r.Label?
  {
    Split(CString(Join(name) + [0]))
  }

  lemma {:induction false} PrintedIsItself(name: Name)
    requires name.Label?
    ensures Printed(name) == name <==> Clean(name)
  {
    SplitClean(CString(Join(name) + [0]));
    if Clean(name) {
      SplitJoin(name);
      CStringIs(Join(name) + [0], Join(name));
    }
  }

  /** Two names have the same key exactly when what they are printed as differs in letter case at most:
      clean names exactly when they are the same name of section 2.3.3 of RFC 1035. */
  lemma {:induction false} KeyMeans(a: Name, b: Name)
    requires a.Label? && b.Label?
    ensures Lower(CString(Join(a) + [0])) == Lower(CString(Join(b) + [0])) <==> SameIgnoringCase(Printed(a), Printed(b))
    ensures Clean(a) && Clean(b) ==>
              (Lower(CString(Join(a) + [0])) == Lower(CString(Join(b) + [0])) <==> SameIgnoringCase(a, b))
    ensures NoCapitals(Lower(CString(Join(a) + [0])))
  {
    hide Lower, CString, Join, SameIgnoringCase, Clean, Split, NoCapitals;
    LowerMeans(CString(Join(a) + [0]), []);
    var s, r := CString(Join(a) + [0]), CString(Join(b) + [0]);
    JoinSplit(s);
    JoinSplit(r);
    if Lower(s) == Lower(r) {
      CaseOfSplit(s, r);
    }
    if SameIgnoringCase(Split(s), Split(r)) {
      CaseOfJoin(Split(s), Split(r));
    }
    PrintedIsItself(a);
    PrintedIsItself(b);
  }

  /** Texts that differ in case at most split into names that do. */
  lemma {:induction false} CaseOfSplit(s: seq<byte>, r: seq<byte>)
    requires Lower(s) == Lower(r)
    ensures SameIgnoringCase(Split(s), Split(r))
    decreases |s|
  {
    hide FirstDot, Lower, SameText;
    var d := FirstDot(s);
    assert |s| == |Lower(s)| == |Lower(r)| == |r|;
    CaseOfFirstDot(s, r);
    LowerSlice(s, 0, d);
    LowerSlice(r, 0, d);
    LowerMeans(s[..d], r[..d]);
    if d < |s| {
      LowerSlice(s, d + 1, |s|);
      LowerSlice(r, d + 1, |r|);
      assert s[d + 1..] == s[d + 1..|s|] && r[d + 1..] == r[d + 1..|r|];
      CaseOfSplit(s[d + 1..], r[d + 1..]);
    }
  }

  lemma CaseOfFirstDot(s: seq<byte>, r: seq<byte>)
    requires Lower(s) == Lower(r)
    ensures FirstDot(s) == FirstDot(r)
  {
    var d := FirstDot(s);
    FirstDotMeans(s);
    hide FirstDot;
    assert |s| == |Lower(s)| == |Lower(r)| == |r|;
    forall i | 0 <= i < |s|
      ensures s[i] == DOT <==> r[i] == DOT
    {
      assert Lower(s)[i] == LowerByte(s[i]) && Lower(r)[i] == LowerByte(r[i]);
    }
    assert forall i :: 0 <= i < d ==> s[..d][i] == s[i] && r[..d][i] == r[i];
    FirstDotIs(r, d);
  }

  lemma LowerSlice(s: seq<byte>, i: nat, j: nat)
    requires i <= j <= |s|
    ensures Lower(s[i..j]) == Lower(s)[i..j]
  {
  }

  /** The key does not tell a dot inside a label from one between labels. */
  lemma DotInLabel(a: seq<byte>, b: seq<byte>, rest: Name)
    ensures var one, two := Label(a + [DOT] + b, rest), Label(a, Label(b, rest));
            Lower(CString(Join(one) + [0])) == Lower(CString(Join(two) + [0])) && !SameIgnoringCase(one, two)
  {
    var one, two := Label(a + [DOT] + b, rest), Label(a, Label(b, rest));
    if rest.Label? {
      Associate(a + [DOT], b, [DOT], Join(rest));
    }
    assert Join(one) == Join(two);
  }
}
