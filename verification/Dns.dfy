/**
 Domain names on the wire (src/dns.cc; sections 3.1 and 4.1.4 of RFC 1035).

 parse_name writes a dotted name as length-prefixed labels; resolve_name reads such a sequence
 back, following compression pointers. Any length byte above 63 counts as a pointer.
 */
module Dns {
  import opened Machine
  import opened NetBuffer

  const MAX_LABEL_LEN := 63
  const DOT: byte := 46

  // ---------------------------------------------------------------- names as text

  /** The end of the label that starts at p: the next dot, or the end of the name. */
  function LabelEnd(s: seq<byte>, p: nat): (q: nat)
    requires p <= |s|
    ensures p <= q <= |s| && (q < |s| ==> s[q] == DOT)
    decreases |s| - p
  {
    if p == |s| || s[p] == DOT then p else LabelEnd(s, p + 1)
  }

  lemma {:induction false} NoDotInside(s: seq<byte>, p: nat, i: nat)
    requires p <= i < |s| && i < LabelEnd(s, p)
    ensures s[i] != DOT
    decreases i - p
  {
    if p < i { NoDotInside(s, p + 1, i); }
  }

  /** From p on: dotted labels of 1 to 63 bytes, no dot at either end. */
  predicate ValidFrom(s: seq<byte>, p: nat)
    requires p <= |s|
    decreases |s| - p
  {
    var q := LabelEnd(s, p);
    0 < q - p <= MAX_LABEL_LEN && (q == |s| || ValidFrom(s, q + 1))
  }

  /** From p on: no label is too long. */
  predicate ShortFrom(s: seq<byte>, p: nat)
    requires p <= |s|
    decreases |s| - p
  {
    var q := LabelEnd(s, p);
    q - p <= MAX_LABEL_LEN && (q == |s| || ShortFrom(s, q + 1))
  }

  predicate ValidName(s: seq<byte>) {
    ValidFrom(s, 0)
  }

  predicate ShortLabels(s: seq<byte>) {
    ShortFrom(s, 0)
  }

  /** A label starts at p. */
  predicate Starts(s: seq<byte>, p: nat) {
    p <= |s| && (p == 0 || s[p - 1] == DOT)
  }

  /**
   The wire form is the name moved up by one byte, with the length of the label that follows in
   the place of each dot and in front, and a zero at the end. After a trailing dot the last length
   and the zero are missing; nothing is written for the empty name.
   */
  function WireByte(s: seq<byte>, j: nat): byte
    requires j <= |s| + 1
  {
    if j > |s| then 0
    else if Starts(s, j) then ((LabelEnd(s, j) - j) % 256) as byte
    else s[j - 1]
  }

  function WireLen(s: seq<byte>): nat {
    if Starts(s, |s|) then |s| else |s| + 2
  }

  function Wire(s: seq<byte>): seq<byte> {
    seq(WireLen(s), j requires 0 <= j < WireLen(s) => WireByte(s, j))
  }

  /** The inner loop of parse_name. */
  method FindLabelEnd(name: seq<byte>, begin: nat) returns (p: nat)
    requires begin <= |name|
    ensures p == LabelEnd(name, begin)
  {
    p := begin;
    while p < |name| && name[p] != DOT
      invariant begin <= p <= |name| && LabelEnd(name, begin) == LabelEnd(name, p)
    {
      p := p + 1;
    }
  }

  /** The two appends for a label; what does not fit is left out without notice. */
  method AppendLabel(buffer: NetBuf, text: seq<byte>)
    requires |text| <= MAX_LABEL_LEN
    modifies buffer
    ensures |buffer.data| + buffer.left == old(|buffer.data| + buffer.left)
    ensures old(buffer.left) >= |text| + 1 ==>
              buffer.data == old(buffer.data) + ([|text| as byte] + text) && buffer.left == old(buffer.left) - |text| - 1
  {
    var e := buffer.Append([|text| as byte]);
    e := buffer.Append(text);
  }

  /** The first n bytes of the wire form. */
  ghost predicate Wrote(name: seq<byte>, w: seq<byte>, n: nat) {
    |w| == n <= WireLen(name) && forall j :: 0 <= j < n ==> w[j] == WireByte(name, j)
  }

  lemma LabelWrote(name: seq<byte>, w: seq<byte>, p: nat, q: nat)
    requires p < |name| && Starts(name, p) && q == LabelEnd(name, p) && q - p <= MAX_LABEL_LEN && Wrote(name, w, p)
    ensures Wrote(name, w + ([(q - p) as byte] + name[p..q]), q + 1)
    ensures q == |name| ==> Wrote(name, w + ([(q - p) as byte] + name[p..q]) + [0], q + 2)
  {
    forall i | p <= i < q ensures name[i] != DOT { NoDotInside(name, p, i); }
  }

  lemma AllWrote(name: seq<byte>, w: seq<byte>)
    requires Wrote(name, w, WireLen(name))
    ensures w == Wire(name)
  {
  }

  /**
   parse_name: refused exactly when a label is too long; otherwise it reports success, and the
   wire form of the name is in the buffer exactly when there was room for it.
   */
  method ParseName(name: seq<byte>, buffer: NetBuf) returns (r: int)
    modifies buffer
    ensures r == if ShortLabels(name) then 0 else -1
    ensures r == 0 ==> (buffer.data == old(buffer.data) + Wire(name) <==> old(buffer.left) >= WireLen(name))
  {
    var p := 0;
    ghost var wrote: seq<byte> := [];
    ghost var room := buffer.left >= WireLen(name);
    while p < |name|
      invariant 0 <= p <= |name| && |buffer.data| + buffer.left == old(|buffer.data| + buffer.left)
      invariant room ==> buffer.left >= WireLen(name) - p && buffer.data == old(buffer.data) + wrote
      invariant Starts(name, p) && Wrote(name, wrote, p) && (ShortLabels(name) <==> ShortFrom(name, p))
    {
      var begin := p;
      p := FindLabelEnd(name, begin);
      if p - begin > MAX_LABEL_LEN {
        return -1;
      }
      LabelWrote(name, wrote, begin, p);
      AppendLabel(buffer, name[begin..p]);
      ghost var head := [(p - begin) as byte] + name[begin..p];
      Regroup(old(buffer.data), wrote, head);
      wrote := wrote + head;
      if p == |name| {
        var e := buffer.Append([0]);
        Regroup(old(buffer.data), wrote, [0]);
        AllWrote(name, wrote + [0]);
        return 0;
      }
      p := p + 1;
    }
    AllWrote(name, wrote);
    return 0;
  }

  lemma Regroup(a: seq<byte>, b: seq<byte>, c: seq<byte>)
    ensures a + b + c == a + (b + c)
  {
  }

  // ---------------------------------------------------------------- names in a message

  /** Where the pointer at pos leads: the 14 low bits of its two bytes, the high byte first. */
  function Target(msg: seq<byte>, pos: nat): (r: nat)
    requires pos + 1 < |msg|
    ensures r == (256 * msg[pos] as nat + msg[pos + 1] as nat) % 16384
  {
    256 * (msg[pos] as nat % 64) + msg[pos + 1] as nat
  }

  /** The label at pos is inside the message, with the byte behind it, and holds no zero byte. */
  predicate LabelAt(msg: seq<byte>, pos: nat) {
    && pos < |msg| && pos + 1 + msg[pos] as nat < |msg|
    && forall i :: pos < i <= pos + msg[pos] as nat ==> msg[i] != 0
  }

  /** The pointer at pos leads to a name, not the root, that starts before `start`. */
  predicate PointerAt(msg: seq<byte>, start: nat, pos: nat) {
    pos + 1 < |msg| && Target(msg, pos) < start <= |msg| && msg[Target(msg, pos)] != 0
  }

  /**
   A name that starts at `start` and goes on at `pos`: labels, then a zero byte or a pointer to a
   well-formed name that starts before this one.
   */
  predicate WellFormed(msg: seq<byte>, start: nat, pos: nat)
    decreases start, |msg| - pos
  {
    start <= pos < |msg| &&
    var len := msg[pos] as nat;
    if len == 0 then true
    else if len <= MAX_LABEL_LEN then LabelAt(msg, pos) && WellFormed(msg, start, pos + 1 + len)
    else PointerAt(msg, start, pos) && WellFormed(msg, Target(msg, pos), Target(msg, pos))
  }

  /** The labels of the name. */
  function Labels(msg: seq<byte>, start: nat, pos: nat): seq<seq<byte>>
    requires WellFormed(msg, start, pos)
    decreases start, |msg| - pos
  {
    var len := msg[pos] as nat;
    if len == 0 then []
    else if len <= MAX_LABEL_LEN then [msg[pos + 1..pos + 1 + len]] + Labels(msg, start, pos + 1 + len)
    else Labels(msg, Target(msg, pos), Target(msg, pos))
  }

  function Dotted(labels: seq<seq<byte>>): seq<byte> {
    if labels == [] then []
    else if |labels| == 1 then labels[0]
    else labels[0] + [DOT] + Dotted(labels[1..])
  }

  /** Where the name ends in the message: after its zero byte, or after its first pointer. */
  function End(msg: seq<byte>, start: nat, pos: nat): (e: nat)
    requires WellFormed(msg, start, pos)
    decreases |msg| - pos
  {
    var len := msg[pos] as nat;
    if len == 0 then pos + 1
    else if len <= MAX_LABEL_LEN then End(msg, start, pos + 1 + len)
    else pos + 2
  }

  /** The name as resolve_name reads it: its text and the place behind it. */
  datatype Name = Malformed | Name(text: seq<byte>, end: nat)

  function Decode(msg: seq<byte>, start: nat, pos: nat): Name
    decreases start, |msg| - pos
  {
    if !(start <= pos < |msg|) then Malformed
    else
      var len := msg[pos] as nat;
      if len == 0 then Name([], pos + 1)
      else if len <= MAX_LABEL_LEN then
        if LabelAt(msg, pos) then Prefixed(msg[pos + 1..pos + 1 + len], msg[pos + 1 + len], Decode(msg, start, pos + 1 + len))
        else Malformed
      else if PointerAt(msg, start, pos) then Moved(Decode(msg, Target(msg, pos), Target(msg, pos)), pos + 2)
      else Malformed
  }

  /** A label in front of a name; a dot between them unless the name ends at once. */
  function Prefixed(text: seq<byte>, next: byte, rest: Name): Name {
    if rest.Malformed? then Malformed
    else rest.(text := if next == 0 then text else text + ([DOT] + rest.text))
  }

  function Moved(name: Name, end: nat): Name {
    if name.Malformed? then Malformed else name.(end := end)
  }

  /** What is read is the dotted text of the labels, for exactly the well-formed names. */
  lemma {:induction false} DecodeLabels(msg: seq<byte>, start: nat, pos: nat)
    ensures WellFormed(msg, start, pos) <==> Decode(msg, start, pos).Name?
    ensures WellFormed(msg, start, pos) ==>
              && Decode(msg, start, pos) == Name(Dotted(Labels(msg, start, pos)), End(msg, start, pos))
              && (Labels(msg, start, pos) == [] <==> msg[pos] == 0)
    decreases start, |msg| - pos
  {
    if start <= pos < |msg| && msg[pos] != 0 {
      var len := msg[pos] as nat;
      if len <= MAX_LABEL_LEN {
        if LabelAt(msg, pos) {
          DecodeLabels(msg, start, pos + 1 + len);
          if WellFormed(msg, start, pos) { DottedFirst(msg[pos + 1..pos + 1 + len], Labels(msg, start, pos + 1 + len)); }
        }
      } else if PointerAt(msg, start, pos) {
        DecodeLabels(msg, Target(msg, pos), Target(msg, pos));
      }
    }
  }

  lemma DottedFirst(text: seq<byte>, rest: seq<seq<byte>>)
    ensures Dotted([text] + rest) == if rest == [] then text else text + ([DOT] + Dotted(rest))
  {
    assert ([text] + rest)[1..] == rest;
  }

  // ---------------------------------------------------------------- resolving

  /** Having come to pos with `text` in hand, what is read from there on completes the name. */
  ghost predicate Track(msg: seq<byte>, at: nat, pos: nat, text: seq<byte>) {
    var whole, rest := Decode(msg, at, at), Decode(msg, at, pos);
    whole.Name? && rest.Name? && whole == Name(text + rest.text, rest.end)
  }

  lemma TrackStart(msg: seq<byte>, at: nat)
    requires Decode(msg, at, at).Name?
    ensures at < |msg| && Track(msg, at, at, [])
  {
  }

  lemma TrackLabel(msg: seq<byte>, at: nat, pos: nat, text: seq<byte>)
    requires Track(msg, at, pos, text) && pos < |msg| && 0 < msg[pos] as nat <= MAX_LABEL_LEN
    ensures pos + 1 + msg[pos] as nat < |msg|
    ensures var next := pos + 1 + msg[pos] as nat;
            Track(msg, at, next, if msg[next] == 0 then text + msg[pos + 1..next] else text + msg[pos + 1..next] + [DOT])
  {
    var next := pos + 1 + msg[pos] as nat;
    var rest := Decode(msg, at, next);
    Regroup(text, msg[pos + 1..next], [DOT] + rest.text);
    Regroup(text + msg[pos + 1..next], [DOT], rest.text);
  }

  /** At a pointer: the name that it leads to completes this one, which ends behind the pointer. */
  lemma TrackPointer(msg: seq<byte>, at: nat, pos: nat, text: seq<byte>)
    requires Track(msg, at, pos, text) && pos < |msg| && msg[pos] as nat > MAX_LABEL_LEN
    ensures pos + 1 < |msg| && Target(msg, pos) < at && Decode(msg, Target(msg, pos), Target(msg, pos)).Name?
    ensures Decode(msg, at, at) == Name(text + Decode(msg, Target(msg, pos), Target(msg, pos)).text, pos + 2)
  {
  }

  /** At the zero byte the name is complete. */
  lemma TrackEnd(msg: seq<byte>, at: nat, pos: nat, text: seq<byte>)
    requires Track(msg, at, pos, text) && pos < |msg| && msg[pos] == 0
    ensures Decode(msg, at, at) == Name(text, pos + 1)
  {
  }

  /** One label of the loop in resolve_name, and the dot behind it unless the name ends there. */
  method ReadLabel(msg: seq<byte>, data: nat, was: seq<byte>, ghost at: nat) returns (name: seq<byte>, next: nat)
    requires 0 < data <= |msg| && 0 < msg[data - 1] as nat <= MAX_LABEL_LEN && Track(msg, at, data - 1, was)
    ensures data < next <= |msg| && Track(msg, at, next - 1, name)
  {
    var len := msg[data - 1] as nat;
    TrackLabel(msg, at, data - 1, was);
    next := data + len + 1;
    if msg[data + len] == 0 {
      name := was + msg[data..data + len];
    } else {
      name := was + msg[data..data + len] + [DOT];
    }
  }

  /** resolve_name: the text of the name at `at`, and how many bytes it takes there. */
  method ResolveName(msg: seq<byte>, at: nat) returns (name: seq<byte>, count: nat)
    requires Decode(msg, at, at).Name?
    ensures Decode(msg, at, at) == Name(name, at + count)
    decreases at
  {
    TrackStart(msg, at);
    var data := at + 1;
    name := [];
    while 0 < msg[data - 1] as nat <= MAX_LABEL_LEN
      invariant at < data <= |msg| && Track(msg, at, data - 1, name)
      decreases |msg| - data
    {
      name, data := ReadLabel(msg, data, name, at);
    }
    if msg[data - 1] == 0 {
      TrackEnd(msg, at, data - 1, name);
      return name, data - at;
    }
    TrackPointer(msg, at, data - 1, name);
    var rest, n := ResolveName(msg, Target(msg, data - 1));
    return name + rest, data + 1 - at;
  }

  // ---------------------------------------------------------------- there and back

  predicate NoZero(s: seq<byte>) {
    forall i :: 0 <= i < |s| ==> s[i] != 0
  }

  /** The wire form of s stands in the message at `at`. */
  ghost predicate Spelt(msg: seq<byte>, at: nat, s: seq<byte>) {
    && at + WireLen(s) <= |msg|
    && forall j {:trigger WireByte(s, j)} :: 0 <= j < WireLen(s) ==> msg[at + j] == WireByte(s, j)
  }

  /** At pos there is more of the name that starts at `at`, and it reads as the text. */
  ghost predicate Reading(msg: seq<byte>, at: nat, pos: nat, text: seq<byte>) {
    pos < |msg| && msg[pos] != 0 && Decode(msg, at, pos).Name? && Decode(msg, at, pos).text == text
  }

  /** The label that starts at p, its length before it, and what comes behind. */
  lemma LabelSpelt(msg: seq<byte>, at: nat, s: seq<byte>, p: nat, n: nat)
    requires Spelt(msg, at, s) && p < |s| && Starts(s, p) && p + n == LabelEnd(s, p) && n <= MAX_LABEL_LEN
    ensures at + p + 1 + n <= |msg| && msg[at + p] as nat == n && msg[at + p + 1..at + p + 1 + n] == s[p..p + n]
    ensures p + n == |s| ==> at + p + 1 + n < |msg| && msg[at + p + 1 + n] == 0
  {
    assert msg[at + p] == WireByte(s, p);
    if p + n == |s| { NoDotInside(s, p, p + n - 1); }
    forall i | p <= i < p + n ensures msg[at + i + 1] == s[i] {
      NoDotInside(s, p, i);
      assert msg[at + (i + 1)] == WireByte(s, i + 1);
    }
    if p + n == |s| { assert msg[at + (p + n + 1)] == WireByte(s, p + n + 1); }
  }

  lemma LabelThere(msg: seq<byte>, pos: nat, n: nat, text: seq<byte>)
    requires n == |text| && NoZero(text) && pos + 1 + n < |msg| && msg[pos] as nat == n && msg[pos + 1..pos + 1 + n] == text
    ensures LabelAt(msg, pos)
  {
    forall i | pos < i <= pos + n ensures msg[i] != 0 {
      assert msg[pos + 1..pos + 1 + n][i - pos - 1] == msg[i];
    }
  }

  lemma AtDot(s: seq<byte>, p: nat, q: nat)
    requires p <= q < |s| && s[q] == DOT
    ensures s[p..] == s[p..q] + ([DOT] + s[q + 1..])
  {
  }

  lemma SameText(l: seq<byte>, x: seq<byte>, rest: seq<byte>)
    ensures l + ([DOT] + x) == l + ([DOT] + rest) <==> x == rest
    ensures l != l + ([DOT] + rest)
  {
    assert (l + ([DOT] + x))[|l| + 1..] == x && (l + ([DOT] + rest))[|l| + 1..] == rest;
    assert |l| != |l + ([DOT] + rest)|;
  }

  /** A label and a dot in the message: the text is read exactly when the rest is. */
  lemma TextBack(msg: seq<byte>, at: nat, pos: nat, n: nat, text: seq<byte>, tail: seq<byte>)
    requires at <= pos && 0 < n <= MAX_LABEL_LEN && LabelAt(msg, pos) && msg[pos] as nat == n
    requires msg[pos + 1..pos + 1 + n] == text
    ensures Reading(msg, at, pos, text + ([DOT] + tail)) <==> Reading(msg, at, pos + 1 + n, tail)
  {
    var rest := Decode(msg, at, pos + 1 + n);
    if rest.Name? { SameText(text, rest.text, tail); }
  }

  lemma RestBack(msg: seq<byte>, at: nat, pos: nat, n: nat, s: seq<byte>, p: nat)
    requires at <= pos && 0 < n <= MAX_LABEL_LEN && LabelAt(msg, pos) && msg[pos] as nat == n
    requires p + n < |s| && s[p + n] == DOT && msg[pos + 1..pos + 1 + n] == s[p..p + n]
    ensures Reading(msg, at, pos, s[p..]) <==> Reading(msg, at, pos + 1 + n, s[p + n + 1..])
  {
    AtDot(s, p, p + n);
    TextBack(msg, at, pos, n, s[p..p + n], s[p + n + 1..]);
  }

  /** The last label is read in full. */
  lemma LastBack(msg: seq<byte>, at: nat, pos: nat, n: nat, text: seq<byte>)
    requires at <= pos && 0 < n <= MAX_LABEL_LEN && LabelAt(msg, pos) && msg[pos] as nat == n
    requires msg[pos + 1..pos + 1 + n] == text && msg[pos + 1 + n] == 0
    ensures Reading(msg, at, pos, text)
  {
    assert Decode(msg, at, pos + 1 + n) == Name([], pos + 1 + n + 1);
  }

  lemma LastReads(msg: seq<byte>, at: nat, s: seq<byte>, p: nat, n: nat)
    requires Spelt(msg, at, s) && Starts(s, p) && 0 < n <= MAX_LABEL_LEN && p + n == LabelEnd(s, p) == |s| && LabelAt(msg, at + p)
    ensures Reading(msg, at, at + p, s[p..])
  {
    LabelSpelt(msg, at, s, p, n);
    assert s[p..p + n] == s[p..];
    LastBack(msg, at, at + p, n, s[p..]);
  }

  lemma NextReads(msg: seq<byte>, at: nat, s: seq<byte>, p: nat, n: nat)
    requires Spelt(msg, at, s) && Starts(s, p) && 0 < n <= MAX_LABEL_LEN && p + n == LabelEnd(s, p) < |s| && LabelAt(msg, at + p)
    ensures Reading(msg, at, at + p, s[p..]) <==> Reading(msg, at, at + p + 1 + n, s[p + n + 1..])
  {
    LabelSpelt(msg, at, s, p, n);
    RestBack(msg, at, at + p, n, s, p);
  }

  lemma SpeltLabel(msg: seq<byte>, at: nat, s: seq<byte>, p: nat, n: nat)
    requires Spelt(msg, at, s) && NoZero(s) && Starts(s, p) && p < |s| && p + n == LabelEnd(s, p) && n <= MAX_LABEL_LEN
    requires at + p + 1 + n < |msg| || p + n == |s|
    ensures LabelAt(msg, at + p)
  {
    LabelSpelt(msg, at, s, p, n);
    LabelThere(msg, at + p, n, s[p..p + n]);
  }

  /** A valid name spelt in the message is read as itself. */
  lemma {:induction false} SpeltReads(msg: seq<byte>, at: nat, s: seq<byte>, p: nat)
    requires Spelt(msg, at, s) && NoZero(s) && Starts(s, p) && ValidFrom(s, p)
    ensures Reading(msg, at, at + p, s[p..])
    decreases |s| - p
  {
    var n := LabelEnd(s, p) - p;
    if p + n == |s| {
      SpeltLabel(msg, at, s, p, n);
      LastReads(msg, at, s, p, n);
    } else {
      SpeltReads(msg, at, s, p + n + 1);
      assert at + (p + n + 1) == at + p + 1 + n;
      SpeltLabel(msg, at, s, p, n);
      NextReads(msg, at, s, p, n);
    }
  }

  lemma CountSpelt(msg: seq<byte>, at: nat, s: seq<byte>, p: nat)
    requires Spelt(msg, at, s) && p < |s| && Starts(s, p) && LabelEnd(s, p) - p <= MAX_LABEL_LEN
    ensures at + p < |msg| && msg[at + p] as nat == LabelEnd(s, p) - p
  {
    assert msg[at + p] == WireByte(s, p);
  }

  lemma DecodeNext(msg: seq<byte>, at: nat, pos: nat, n: nat)
    requires Decode(msg, at, pos).Name? && pos < |msg| && msg[pos] as nat == n && 0 < n <= MAX_LABEL_LEN
    ensures LabelAt(msg, pos) && Decode(msg, at, pos + 1 + n).Name?
  {
  }

  /** No name that goes on is read as nothing. */
  lemma NotEmpty(msg: seq<byte>, at: nat, pos: nat)
    ensures !Reading(msg, at, pos, [])
    decreases at, |msg| - pos
  {
    if at <= pos < |msg| && msg[pos] as nat > MAX_LABEL_LEN && PointerAt(msg, at, pos) {
      NotEmpty(msg, Target(msg, pos), Target(msg, pos));
    }
  }

  /** From p on, the name is read back exactly when it is valid. */
  ghost predicate Back(msg: seq<byte>, at: nat, s: seq<byte>, p: nat)
    requires p <= |s|
  {
    Reading(msg, at, at + p, s[p..]) <==> ValidFrom(s, p)
  }

  lemma BackAtEnd(msg: seq<byte>, at: nat, s: seq<byte>)
    ensures Back(msg, at, s, |s|)
  {
    assert s[|s|..] == [];
    NotEmpty(msg, at, at + |s|);
  }

  lemma BackAtDot(msg: seq<byte>, at: nat, s: seq<byte>, p: nat)
    requires p < |s| && LabelEnd(s, p) == p && at + p < |msg| && msg[at + p] == 0
    ensures Back(msg, at, s, p)
  {
  }

  lemma BackAtLast(msg: seq<byte>, at: nat, s: seq<byte>, p: nat, n: nat)
    requires Spelt(msg, at, s) && Starts(s, p) && 0 < n <= MAX_LABEL_LEN && p + n == LabelEnd(s, p) == |s| && LabelAt(msg, at + p)
    ensures Back(msg, at, s, p)
  {
    LastReads(msg, at, s, p, n);
  }

  lemma BackBefore(msg: seq<byte>, at: nat, s: seq<byte>, p: nat, n: nat)
    requires Spelt(msg, at, s) && Starts(s, p) && 0 < n <= MAX_LABEL_LEN && p + n == LabelEnd(s, p) < |s| && LabelAt(msg, at + p)
    requires Back(msg, at, s, p + n + 1)
    ensures Back(msg, at, s, p)
  {
    NextReads(msg, at, s, p, n);
    assert at + p + 1 + n == at + (p + n + 1);
  }

  lemma {:induction false} ReadsBack(msg: seq<byte>, at: nat, s: seq<byte>, p: nat)
    requires Spelt(msg, at, s) && Starts(s, p) && ShortFrom(s, p) && Decode(msg, at, at + p).Name?
    ensures Back(msg, at, s, p)
    decreases |s| - p
  {
    if p == |s| {
      BackAtEnd(msg, at, s);
    } else {
      var n := LabelEnd(s, p) - p;
      CountSpelt(msg, at, s, p);
      if n == 0 {
        BackAtDot(msg, at, s, p);
      } else {
        DecodeNext(msg, at, at + p, n);
        if p + n == |s| {
          BackAtLast(msg, at, s, p, n);
        } else {
          assert at + p + 1 + n == at + (p + n + 1);
          ReadsBack(msg, at, s, p + n + 1);
          BackBefore(msg, at, s, p, n);
        }
      }
    }
  }

  /** A name comes back from the wire exactly when it is valid: no empty label, no dot at the end. */
  lemma ComesBack(msg: seq<byte>, at: nat, s: seq<byte>)
    requires Spelt(msg, at, s) && s != [] && ShortLabels(s) && Decode(msg, at, at).Name?
    ensures Decode(msg, at, at).text == s <==> ValidName(s)
  {
    assert at + 0 == at && s[0..] == s;
    ReadsBack(msg, at, s, 0);
  }

  /** "a.", followed by the type and class of a question, comes back as "a". */
  lemma TrailingDot()
    ensures var s, msg := [97, DOT], [1, 97, 0, 1, 0, 1];
            ShortLabels(s) && Spelt(msg, 0, s) && Decode(msg, 0, 0) == Name([97], 3)
  {
    var s: seq<byte>, msg: seq<byte> := [97, DOT], [1, 97, 0, 1, 0, 1];
    assert LabelEnd(s, 1) == 1 && LabelEnd(s, 0) == 1 && LabelEnd(s, 2) == 2;
    assert ShortFrom(s, 2);
    assert WireByte(s, 0) == 1 && WireByte(s, 1) == 97;
    OneLabel(msg);
  }

  /** "a..b" comes back as "a". */
  lemma EmptyLabel()
    ensures var s, msg := [97, DOT, DOT, 98], [1, 97, 0, 1, 98, 0];
            ShortLabels(s) && Spelt(msg, 0, s) && Decode(msg, 0, 0) == Name([97], 3)
  {
    var s: seq<byte>, msg: seq<byte> := [97, DOT, DOT, 98], [1, 97, 0, 1, 98, 0];
    assert LabelEnd(s, 4) == 4 && LabelEnd(s, 3) == 4 && LabelEnd(s, 2) == 2 && LabelEnd(s, 1) == 1 && LabelEnd(s, 0) == 1;
    assert ShortFrom(s, 3) && ShortFrom(s, 2);
    assert WireByte(s, 0) == 1 && WireByte(s, 1) == 97 && WireByte(s, 2) == 0;
    assert WireByte(s, 3) == 1 && WireByte(s, 4) == 98 && WireByte(s, 5) == 0;
    OneLabel(msg);
  }

  /** A label may have 63 bytes and not 64. */
  lemma LabelLimit(n: nat)
    ensures ShortLabels(seq(n, _ => 97)) <==> n <= 63
  {
    LettersEnd(n, 0);
  }

  lemma {:induction false} LettersEnd(n: nat, p: nat)
    requires p <= n
    ensures LabelEnd(seq(n, _ => 97), p) == n
    decreases n - p
  {
    if p < n { LettersEnd(n, p + 1); }
  }

  /** "a.bc" on the wire, byte by byte. */
  lemma WireForm()
    ensures Wire([97, DOT, 98, 99]) == [1, 97, 2, 98, 99, 0]
  {
    var s: seq<byte> := [97, DOT, 98, 99];
    assert LabelEnd(s, 4) == 4 && LabelEnd(s, 3) == 4 && LabelEnd(s, 2) == 4 && LabelEnd(s, 1) == 1 && LabelEnd(s, 0) == 1;
    assert WireByte(s, 0) == 1 && WireByte(s, 1) == 97 && WireByte(s, 2) == 2 && WireByte(s, 3) == 98 && WireByte(s, 4) == 99;
  }

  /** The bytes c1 0c lead to 268; "bc" at 0 and "a" with a pointer to it at 4 are "a.bc". */
  lemma PointerForm()
    ensures Target([0xc1, 0x0c], 0) == 268
    ensures Decode([2, 98, 99, 0, 1, 97, 0xc0, 0], 4, 4) == Name([97, DOT, 98, 99], 8)
  {
    var msg: seq<byte> := [2, 98, 99, 0, 1, 97, 0xc0, 0];
    FirstName(msg);
    PointerName(msg);
    LabelThenPointer(msg);
  }

  lemma FirstName(msg: seq<byte>)
    requires |msg| == 8 && msg[0] == 2 && msg[1] == 98 && msg[2] == 99 && msg[3] == 0
    ensures Decode(msg, 0, 0) == Name([98, 99], 4)
  {
    assert Decode(msg, 0, 3) == Name([], 4);
    assert LabelAt(msg, 0) && msg[1..3] == [98, 99];
  }

  lemma PointerName(msg: seq<byte>)
    requires |msg| == 8 && msg[0] == 2 && msg[6] == 0xc0 && msg[7] == 0 && Decode(msg, 0, 0) == Name([98, 99], 4)
    ensures Decode(msg, 4, 6) == Name([98, 99], 8)
  {
    assert Target(msg, 6) == 0 && PointerAt(msg, 4, 6);
  }

  lemma LabelThenPointer(msg: seq<byte>)
    requires |msg| == 8 && msg[4] == 1 && msg[5] == 97 && msg[6] == 0xc0 && Decode(msg, 4, 6) == Name([98, 99], 8)
    ensures Decode(msg, 4, 4) == Name([97, DOT, 98, 99], 8)
  {
    assert LabelAt(msg, 4) && msg[5..6] == [97];
    assert [97] + ([DOT] + [98, 99]) == [97, DOT, 98, 99];
  }

  lemma OneLabel(msg: seq<byte>)
    requires |msg| >= 3 && msg[0] == 1 && msg[1] == 97 && msg[2] == 0
    ensures Decode(msg, 0, 0) == Name([97], 3)
  {
    assert Decode(msg, 0, 2) == Name([], 3);
    assert LabelAt(msg, 0) && msg[1..2] == [97];
  }

  lemma {:induction false} ValidShort(s: seq<byte>, p: nat)
    requires p <= |s| && ValidFrom(s, p)
    ensures ShortFrom(s, p)
    decreases |s| - p
  {
    if LabelEnd(s, p) < |s| { ValidShort(s, LabelEnd(s, p) + 1); }
  }

  /** resolve_name inverts parse_name, wherever in the buffer the name is written. */
  method ThereAndBack(name: seq<byte>, buffer: NetBuf) returns (back: seq<byte>)
    requires buffer.left >= WireLen(name) && ValidName(name) && NoZero(name)
    modifies buffer
    ensures back == name
  {
    var at := |buffer.data|;
    ValidShort(name, 0);
    var r := ParseName(name, buffer);
    SpeltReads(buffer.data, at, name, 0);
    assert name[0..] == name;
    var n;
    back, n := ResolveName(buffer.data, at);
  }
}
