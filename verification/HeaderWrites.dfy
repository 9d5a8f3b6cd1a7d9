/** The pending header words of a finalization: where they lie, what applying
    them changes, and that restoring them in list order undoes them. */
module HeaderWrites {
  import opened Prelude
  import opened ParsingFacts
  import opened Checksum
  import opened Extents
  import opened PacketMachine

  ghost predicate Disjoint(ws: seq<HeaderWrite>) {
    forall i, j :: 0 <= i < j < |ws| ==> ws[i].offset + 2 <= ws[j].offset || ws[j].offset + 2 <= ws[i].offset
  }

  ghost predicate Within(ws: seq<HeaderWrite>, lo: nat, hi: nat) {
    forall i :: 0 <= i < |ws| ==> lo <= ws[i].offset && ws[i].offset + 2 <= hi
  }

  ghost predicate Touched(ws: seq<HeaderWrite>, k: nat) {
    exists i :: 0 <= i < |ws| && ws[i].offset <= k < ws[i].offset + 2
  }

  /** Applying words changes nothing outside them. */
  lemma {:induction false} ApplyKeeps(b: seq<Byte>, ws: seq<HeaderWrite>, k: nat)
    requires Within(ws, 0, |b|) && k < |b| && !Touched(ws, k)
    ensures ApplyWrites(b, ws)[k] == b[k]
  {
    if ws != [] {
      var init := ws[..|ws| - 1];
      forall i | 0 <= i < |init| ensures !(init[i].offset <= k < init[i].offset + 2) { assert init[i] == ws[i]; }
      ApplyKeeps(b, init, k);
      assert !(ws[|ws| - 1].offset <= k < ws[|ws| - 1].offset + 2);
    }
  }

  /** Applying disjoint words stores every one of them. */
  lemma {:induction false} ApplyStores(b: seq<Byte>, ws: seq<HeaderWrite>, i: nat)
    requires Disjoint(ws) && Within(ws, 0, |b|) && i < |ws|
    ensures Word(ApplyWrites(b, ws), ws[i].offset) == ws[i].value
  {
    var init, w := ws[..|ws| - 1], ws[|ws| - 1];
    var c, r := ApplyWrites(b, init), ApplyWrites(b, ws);
    assert r == Splice(c, w.offset, WordBytes(w.value));
    if i < |ws| - 1 {
      ApplyStores(b, init, i);
      assert ws[i] == init[i];
      assert r[ws[i].offset] == c[ws[i].offset] && r[ws[i].offset + 1] == c[ws[i].offset + 1];
    } else {
      assert r[w.offset] == w.value / 256 && r[w.offset + 1] == w.value % 256;
    }
  }

  lemma ApplyMeaning(b: seq<Byte>, ws: seq<HeaderWrite>)
    requires Disjoint(ws) && Within(ws, 0, |b|)
    ensures forall i :: 0 <= i < |ws| ==> Word(ApplyWrites(b, ws), ws[i].offset) == ws[i].value
    ensures forall k: nat :: k < |b| && !Touched(ws, k) ==> ApplyWrites(b, ws)[k] == b[k]
  {
    forall i | 0 <= i < |ws| ensures Word(ApplyWrites(b, ws), ws[i].offset) == ws[i].value { ApplyStores(b, ws, i); }
    forall k: nat | k < |b| && !Touched(ws, k) ensures ApplyWrites(b, ws)[k] == b[k] { ApplyKeeps(b, ws, k); }
  }

  /** The undo list: the words that stood there before. */
  ghost function Before(b: seq<Byte>, ws: seq<HeaderWrite>): (r: seq<HeaderWrite>)
    requires Within(ws, 0, |b|)
    ensures |r| == |ws|
  {
    seq(|ws|, i requires 0 <= i < |ws| => HeaderWrite(ws[i].offset, Word(b, ws[i].offset)))
  }

  lemma TouchedBefore(b: seq<Byte>, ws: seq<HeaderWrite>, k: nat)
    requires Within(ws, 0, |b|)
    ensures Touched(Before(b, ws), k) <==> Touched(ws, k)
  {
    var u := Before(b, ws);
    if Touched(ws, k) {
      var i :| 0 <= i < |ws| && ws[i].offset <= k < ws[i].offset + 2;
      assert u[i].offset <= k < u[i].offset + 2;
    }
    if Touched(u, k) {
      var i :| 0 <= i < |u| && u[i].offset <= k < u[i].offset + 2;
      assert ws[i].offset <= k < ws[i].offset + 2;
    }
  }

  lemma RestoredAt(b: seq<Byte>, ws: seq<HeaderWrite>, r: seq<Byte>, k: nat)
    requires Within(ws, 0, |b|) && |r| == |b| && Touched(ws, k)
    requires forall i :: 0 <= i < |ws| ==> Word(r, ws[i].offset) == Word(b, ws[i].offset)
    ensures r[k] == b[k]
  {
    var i :| 0 <= i < |ws| && ws[i].offset <= k < ws[i].offset + 2;
    assert Word(r, ws[i].offset) == Word(b, ws[i].offset);
  }

  /** Rollback in list order restores the frame, because the windows are disjoint. */
  lemma RollbackRestores(b: seq<Byte>, ws: seq<HeaderWrite>)
    requires Disjoint(ws) && Within(ws, 0, |b|)
    ensures ApplyWrites(ApplyWrites(b, ws), Before(b, ws)) == b
  {
    var c, u := ApplyWrites(b, ws), Before(b, ws);
    var r := ApplyWrites(c, u);
    ApplyMeaning(b, ws);
    ApplyMeaning(c, u);
    forall i | 0 <= i < |ws| ensures Word(r, ws[i].offset) == Word(b, ws[i].offset) {
      assert u[i] == HeaderWrite(ws[i].offset, Word(b, ws[i].offset));
    }
    forall k: nat | k < |b| ensures r[k] == b[k] {
      TouchedBefore(b, ws, k);
      if Touched(ws, k) { RestoredAt(b, ws, r, k); }
    }
  }

  lemma {:induction false} NoRefusal(f: Frame, ws: seq<HeaderWrite>)
    requires |f.writable| == |f.bytes| && FirstRefusal(f, ws).Ok?
    ensures forall i :: 0 <= i < |ws| ==> WriteCheck(f, ws[i].offset, 2).Ok?
  {
    if ws != [] {
      NoRefusal(f, ws[1..]);
      forall i | 0 <= i < |ws| ensures WriteCheck(f, ws[i].offset, 2).Ok? {
        if i > 0 { assert ws[i] == ws[1..][i - 1]; }
      }
    }
  }

  // ---- The words of one plan ---------------------------------------------------

  /** What a plan stores, by place. */
  ghost predicate PlanShape(s: PacketState, plan: Plan) {
    var e := plan.extents;
    && PlanReady(s, plan)
    && |plan.writes| <= 4 && Disjoint(plan.writes)
    && Within(plan.writes, e.networkOffset, e.networkOffset + e.networkLen)
    && |s.frame.writable| == |s.frame.bytes|
    && (forall i :: 0 <= i < |plan.writes| ==> WriteCheck(s.frame, plan.writes[i].offset, 2).Ok?)
    && (forall w :: w in plan.writes <==> Planned(s, plan, w))
  }

  /** The four optional words, in the order they are written. */
  ghost predicate Planned(s: PacketState, plan: Plan, w: HeaderWrite)
    requires PlanReady(s, plan)
  {
    var p, d, e, b := BaseParsed(s), plan.declared, plan.extents, s.frame.bytes;
    w in NetworkWrite(p, d, e) || w in UdpWrite(p, d, e)
    || w in HeaderSumWrite(b, plan.mustHeader, p, e) || w in TransportSumWrite(b, plan.mustTransport, p, e)
  }

  ghost predicate PlanReady(s: PacketState, plan: Plan) {
    var p, d, e, b := BaseParsed(s), plan.declared, plan.extents, s.frame.bytes;
    && Nested(e, p, |b|) && Nested(d, p, BaseLen(s)) && Framed(p, BaseLen(s))
    && d.networkOffset == e.networkOffset && d.transportOffset == e.transportOffset
    && e.networkLen <= 65535 && e.transportLen <= 65535
    && plan.mustHeader == MustHeader(s.journal, p, d, e) && plan.mustTransport == MustTransport(s.journal, p, d, e)
    && (plan.mustHeader ==> HeaderSum(b, p, e).Some?)
    && (plan.mustTransport ==> TransportSum(b, p, e.transportOffset, e.transportLen).Some?)
  }

  /** No word of `a` meets the words of `b`. */
  ghost predicate Apart(a: seq<HeaderWrite>, b: seq<HeaderWrite>) {
    forall i, j :: 0 <= i < |a| && 0 <= j < |b| ==> a[i].offset + 2 <= b[j].offset || b[j].offset + 2 <= a[i].offset
  }

  lemma JoinTwo(a: seq<HeaderWrite>, b: seq<HeaderWrite>, lo: nat, hi: nat)
    requires Disjoint(a) && Disjoint(b) && Apart(a, b) && Within(a, lo, hi) && Within(b, lo, hi)
    ensures Disjoint(a + b) && Within(a + b, lo, hi)
  {
  }

  lemma Single(a: seq<HeaderWrite>, b: seq<HeaderWrite>)
    requires |a| <= 1 && |b| <= 1
    requires a != [] && b != [] ==> a[0].offset + 2 <= b[0].offset || b[0].offset + 2 <= a[0].offset
    ensures Disjoint(a) && Disjoint(b) && Apart(a, b)
  {
  }

  lemma ApartJoin(a: seq<HeaderWrite>, b: seq<HeaderWrite>, c: seq<HeaderWrite>)
    requires Apart(a, c) && Apart(b, c)
    ensures Apart(a + b, c)
  {
  }

  /** Four optional words keep pairwise disjointness and membership when joined. */
  lemma JoinFour(n: seq<HeaderWrite>, u: seq<HeaderWrite>, h: seq<HeaderWrite>, t: seq<HeaderWrite>, lo: nat, hi: nat)
    requires |n| <= 1 && |u| <= 1 && |h| <= 1 && |t| <= 1
    requires Within(n, lo, hi) && Within(u, lo, hi) && Within(h, lo, hi) && Within(t, lo, hi)
    requires n != [] && u != [] ==> n[0].offset + 2 <= u[0].offset
    requires n != [] && h != [] ==> n[0].offset + 2 <= h[0].offset
    requires n != [] && t != [] ==> n[0].offset + 2 <= t[0].offset
    requires u != [] && h != [] ==> h[0].offset + 2 <= u[0].offset
    requires u != [] && t != [] ==> u[0].offset + 2 <= t[0].offset
    requires h != [] && t != [] ==> h[0].offset + 2 <= t[0].offset
    ensures |n + u + h + t| <= 4 && Disjoint(n + u + h + t) && Within(n + u + h + t, lo, hi)
  {
    hide Disjoint, Within, Apart;
    Single(n, u);
    Single(n, h);
    Single(u, h);
    Single(n, t);
    Single(u, t);
    Single(h, t);
    JoinTwo(n, u, lo, hi);
    ApartJoin(n, u, h);
    JoinTwo(n + u, h, lo, hi);
    ApartJoin(n, u, t);
    ApartJoin(n + u, h, t);
    JoinTwo(n + u + h, t, lo, hi);
  }

  lemma ExtentsKeepOffsets(s: PacketState, d: ProtocolExtents)
    requires DeclaredExtents(BaseParsed(s), BaseLen(s)) == Ok(d) && CurrentExtents(s, d).Ok?
    ensures var e := CurrentExtents(s, d).value;
            e.networkOffset == d.networkOffset && e.transportOffset == d.transportOffset
  {
  }

  lemma WordPlaces(s: PacketState, plan: Plan)
    requires PlanReady(s, plan)
    ensures var p, d, e, b := BaseParsed(s), plan.declared, plan.extents, s.frame.bytes;
            var n, u := NetworkWrite(p, d, e), UdpWrite(p, d, e);
            var h, t := HeaderSumWrite(b, plan.mustHeader, p, e), TransportSumWrite(b, plan.mustTransport, p, e);
            var lo, hi := e.networkOffset, e.networkOffset + e.networkLen;
            && Within(n, lo, lo + 6) && Within(h, lo + 10, lo + 20) && lo + 20 <= hi
            && Within(u, lo + 20, hi) && Within(t, lo + 20, hi)
            && (u != [] && t != [] ==> u[0].offset + 2 <= t[0].offset)
  {
  }

  /** A plan's words are at most four, pairwise disjoint, writable, and lie in
      the network packet: two length fields and two checksum fields. */
  lemma PlanIsShaped(s: PacketState)
    requires Good(s) && PlanOf(s).Ok?
    ensures PlanShape(s, PlanOf(s).value)
  {
    var plan := PlanOf(s).value;
    PlanIsReady(s);
    NoRefusal(s.frame, plan.writes);
    WordPlaces(s, plan);
    WritesAreShaped(s, plan);
  }

  lemma WritesAreShaped(s: PacketState, plan: Plan)
    requires PlanReady(s, plan)
    requires var p, d, e, b := BaseParsed(s), plan.declared, plan.extents, s.frame.bytes;
             var n, u := NetworkWrite(p, d, e), UdpWrite(p, d, e);
             var h, t := HeaderSumWrite(b, plan.mustHeader, p, e), TransportSumWrite(b, plan.mustTransport, p, e);
             var lo, hi := e.networkOffset, e.networkOffset + e.networkLen;
             && plan.writes == n + u + h + t
             && Within(n, lo, lo + 6) && Within(h, lo + 10, lo + 20) && lo + 20 <= hi
             && Within(u, lo + 20, hi) && Within(t, lo + 20, hi)
             && (u != [] && t != [] ==> u[0].offset + 2 <= t[0].offset)
    requires |s.frame.writable| == |s.frame.bytes|
    requires forall i :: 0 <= i < |plan.writes| ==> WriteCheck(s.frame, plan.writes[i].offset, 2).Ok?
    ensures PlanShape(s, plan)
  {
    hide NetworkWrite, UdpWrite, HeaderSumWrite, TransportSumWrite, BaseParsed, Disjoint, Within, WriteCheck, PlanReady,
      BaseLen, Nested, Planned, HeaderSum, TransportSum, Framed;
    PartsDefined(s, plan);
    var p, d, e, b := BaseParsed(s), plan.declared, plan.extents, s.frame.bytes;
    var n, u := NetworkWrite(p, d, e), UdpWrite(p, d, e);
    var h, t := HeaderSumWrite(b, plan.mustHeader, p, e), TransportSumWrite(b, plan.mustTransport, p, e);
    AtMostOne(s, plan, n, u, h, t);
    PlacesJoin(n, u, h, t, e.networkOffset, e.networkOffset + e.networkLen);
    PlannedOfFour(s, plan, n, u, h, t);
  }

  /** The four parts of a ready plan are well defined. */
  lemma PartsDefined(s: PacketState, plan: Plan)
    requires PlanReady(s, plan)
    ensures var p, e := BaseParsed(s), plan.extents;
            && e.networkLen <= 65535 && e.transportLen <= 65535 && (!p.networkProtocol.Ipv4? ==> e.networkLen >= 40)
            && (plan.mustHeader ==> HeaderSum(s.frame.bytes, p, e).Some?)
            && (plan.mustTransport ==> TransportSum(s.frame.bytes, p, e.transportOffset, e.transportLen).Some?)
  {
    hide BaseParsed, BaseLen, Framed, HeaderSum, TransportSum;
  }

  lemma AtMostOne(s: PacketState, plan: Plan, n: seq<HeaderWrite>, u: seq<HeaderWrite>, h: seq<HeaderWrite>,
                  t: seq<HeaderWrite>)
    requires PlanReady(s, plan)
    requires var p, d, e, b := BaseParsed(s), plan.declared, plan.extents, s.frame.bytes;
             && n == NetworkWrite(p, d, e) && u == UdpWrite(p, d, e)
             && h == HeaderSumWrite(b, plan.mustHeader, p, e) && t == TransportSumWrite(b, plan.mustTransport, p, e)
    ensures |n| <= 1 && |u| <= 1 && |h| <= 1 && |t| <= 1
  {
    hide BaseParsed, Nested, BaseLen, Framed, HeaderSum, TransportSum;
  }

  /** Words at the places of a plan are few, disjoint and inside the network packet. */
  lemma PlacesJoin(n: seq<HeaderWrite>, u: seq<HeaderWrite>, h: seq<HeaderWrite>, t: seq<HeaderWrite>, lo: nat, hi: nat)
    requires |n| <= 1 && |u| <= 1 && |h| <= 1 && |t| <= 1 && lo + 20 <= hi
    requires Within(n, lo, lo + 6) && Within(h, lo + 10, lo + 20) && Within(u, lo + 20, hi) && Within(t, lo + 20, hi)
    requires u != [] && t != [] ==> u[0].offset + 2 <= t[0].offset
    ensures |n + u + h + t| <= 4 && Disjoint(n + u + h + t) && Within(n + u + h + t, lo, hi)
  {
    hide Disjoint;
    JoinFour(n, u, h, t, lo, hi);
  }

  /** Exactly the words of the four parts are planned. */
  lemma PlannedOfFour(s: PacketState, plan: Plan, n: seq<HeaderWrite>, u: seq<HeaderWrite>, h: seq<HeaderWrite>,
                      t: seq<HeaderWrite>)
    requires PlanReady(s, plan) && plan.writes == n + u + h + t
    requires var p, d, e, b := BaseParsed(s), plan.declared, plan.extents, s.frame.bytes;
             && n == NetworkWrite(p, d, e) && u == UdpWrite(p, d, e)
             && h == HeaderSumWrite(b, plan.mustHeader, p, e) && t == TransportSumWrite(b, plan.mustTransport, p, e)
    ensures forall w :: w in plan.writes <==> Planned(s, plan, w)
  {
    hide NetworkWrite, UdpWrite, HeaderSumWrite, TransportSumWrite, BaseParsed, PlanReady;
    forall w ensures w in plan.writes <==> w in n || w in u || w in h || w in t { MemberOfFour(n, u, h, t, w); }
  }

  lemma MemberOfFour(n: seq<HeaderWrite>, u: seq<HeaderWrite>, h: seq<HeaderWrite>, t: seq<HeaderWrite>, w: HeaderWrite)
    ensures w in n + u + h + t <==> w in n || w in u || w in h || w in t
  {
  }

  lemma PlanIsReady(s: PacketState)
    requires Good(s) && PlanOf(s).Ok?
    ensures PlanReady(s, PlanOf(s).value)
    ensures var plan := PlanOf(s).value;
            var p, d, e, b := BaseParsed(s), plan.declared, plan.extents, s.frame.bytes;
            plan.writes == NetworkWrite(p, d, e) + UdpWrite(p, d, e)
              + HeaderSumWrite(b, plan.mustHeader, p, e) + TransportSumWrite(b, plan.mustTransport, p, e)
            && FirstRefusal(s.frame, plan.writes).Ok?
  {
    ExtentsAreNested(s, PlanOf(s).value.declared);
    ExtentsKeepOffsets(s, PlanOf(s).value.declared);
  }
}
