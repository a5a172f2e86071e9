/**
 Slot selection in the `__main__` block of barbora_bot.py: when the delivery
 response is flagged ok, the matrix of the first delivery is walked day by
 day and hour by hour, and every hour record whose `available` entry is
 truthy yields one notification `"{deliveryTime} :: {available}"`.
 */
module Slots {
  import opened PyValue

  /** One hour record of the matrix; an absent key reads as `None`. */
  datatype Hour = Hour(available: Value, deliveryTime: Value)

  /** One day of the matrix: its `hours` list. */
  datatype Day = Day(hours: seq<Hour>)

  /** One entry of `deliveries`: its `params.matrix`. */
  datatype Delivery = Delivery(matrix: seq<Day>)

  /** The delivery response: the HTTP-level `ok` flag (status below 400) and
      the decoded `deliveries` list. In the script `get_delivery_dates` has
      already called `raise_for_status()`, so `ok` is always true where it is
      tested and the not-ok branch is never taken there. */
  datatype Response = Response(ok: bool, deliveries: seq<Delivery>)

  /** What the slot loop produces: the notifications to send, in order, or the
      `IndexError` raised by `deliveries[0]` on an empty list. */
  datatype Scan = Notify(messages: seq<string>) | IndexError

  /** A coordinate in the matrix: day index, then hour index within that day. */
  datatype Pos = Pos(day: nat, hour: nat)

  /** The notification text for one hour record. */
  function Message(h: Hour): string
  {
    ToStr(h.deliveryTime) + " :: " + ToStr(h.available)
  }

  /** The inner loop: notifications for the available hours of one day. */
  function HourMessages(hours: seq<Hour>): seq<string>
  {
    if |hours| == 0 then []
    else
      var n := |hours| - 1;
      HourMessages(hours[..n]) + (if Truthy(hours[n].available) then [Message(hours[n])] else [])
  }

  /** The outer loop: notifications for every day of the matrix, in day order. */
  function MatrixMessages(matrix: seq<Day>): seq<string>
  {
    if |matrix| == 0 then []
    else
      var n := |matrix| - 1;
      MatrixMessages(matrix[..n]) + HourMessages(matrix[n].hours)
  }

  /** `p` names an hour record of the matrix whose `available` is truthy. */
  ghost predicate IsSlot(matrix: seq<Day>, p: Pos)
  {
    p.day < |matrix| && p.hour < |matrix[p.day].hours| && Truthy(matrix[p.day].hours[p.hour].available)
  }

  /** The hour record at `p`. */
  function At(matrix: seq<Day>, p: Pos): Hour
    requires p.day < |matrix| && p.hour < |matrix[p.day].hours|
  {
    matrix[p.day].hours[p.hour]
  }

  /** Iteration order of the nested loops: day first, then hour. */
  ghost predicate Before(a: Pos, b: Pos)
  {
    a.day < b.day || (a.day == b.day && a.hour < b.hour)
  }

  /** The available hours of day `d`, in hour order. */
  ghost function HourSlots(hours: seq<Hour>, d: nat): seq<Pos>
  {
    if |hours| == 0 then []
    else
      var n := |hours| - 1;
      HourSlots(hours[..n], d) + (if Truthy(hours[n].available) then [Pos(d, n)] else [])
  }

  /** The available hours of the whole matrix, in iteration order. */
  ghost function MatrixSlots(matrix: seq<Day>): seq<Pos>
  {
    if |matrix| == 0 then []
    else
      var n := |matrix| - 1;
      MatrixSlots(matrix[..n]) + HourSlots(matrix[n].hours, n)
  }

  /** Message `i` comes from the available hour record at `ps[i]`. */
  ghost predicate Sourced(matrix: seq<Day>, msgs: seq<string>, ps: seq<Pos>)
  {
    && |ps| == |msgs|
    && forall i :: 0 <= i < |ps| ==> IsSlot(matrix, ps[i]) && msgs[i] == Message(At(matrix, ps[i]))
  }

  /** The positions are strictly increasing in iteration order (so none repeats). */
  ghost predicate InOrder(ps: seq<Pos>)
  {
    forall i, j :: 0 <= i < j < |ps| ==> Before(ps[i], ps[j])
  }

  /** Every available hour record of the matrix appears among the positions. */
  ghost predicate Complete(matrix: seq<Day>, ps: seq<Pos>)
  {
    forall p :: IsSlot(matrix, p) ==> p in ps
  }

  /** `msgs` is the notification list for `matrix`, message `i` coming from the
      hour record at `ps[i]`: the positions are exactly the available hours,
      each once, in day-then-hour order. */
  ghost predicate Enumerates(matrix: seq<Day>, msgs: seq<string>, ps: seq<Pos>)
  {
    Sourced(matrix, msgs, ps) && InOrder(ps) && Complete(matrix, ps)
  }

  /** Each position the inner loop visits is an available hour of day `d`,
      and the message emitted with it is built from that hour's record. */
  lemma {:induction false} HourSlotsSourced(hours: seq<Hour>, d: nat)
    ensures |HourSlots(hours, d)| == |HourMessages(hours)|
    ensures forall i :: 0 <= i < |HourSlots(hours, d)| ==>
      var p := HourSlots(hours, d)[i];
      && p.day == d && p.hour < |hours| && Truthy(hours[p.hour].available)
      && HourMessages(hours)[i] == Message(hours[p.hour])
  {
    if |hours| > 0 {
      var n := |hours| - 1;
      var front := hours[..n];
      HourSlotsSourced(front, d);
      var ps, ps' := HourSlots(hours, d), HourSlots(front, d);
      var ms, ms' := HourMessages(hours), HourMessages(front);
      forall i | 0 <= i < |ps|
        ensures ps[i].day == d && ps[i].hour < |hours| && Truthy(hours[ps[i].hour].available)
        ensures ms[i] == Message(hours[ps[i].hour])
      {
        if i < |ps'| {
          assert ps[i] == ps'[i] && ms[i] == ms'[i];
          assert front[ps'[i].hour] == hours[ps'[i].hour];
        }
      }
    }
  }

  /** The inner loop visits the hours of a day in increasing order. */
  lemma {:induction false} HourSlotsOrdered(hours: seq<Hour>, d: nat)
    ensures forall i :: 0 <= i < |HourSlots(hours, d)| ==> HourSlots(hours, d)[i].hour < |hours|
    ensures forall i, j :: 0 <= i < j < |HourSlots(hours, d)| ==>
      HourSlots(hours, d)[i].hour < HourSlots(hours, d)[j].hour
  {
    if |hours| > 0 {
      var n := |hours| - 1;
      var front := hours[..n];
      HourSlotsOrdered(front, d);
      var ps, ps' := HourSlots(hours, d), HourSlots(front, d);
      forall i | 0 <= i < |ps|
        ensures ps[i].hour < |hours|
      {
        if i < |ps'| {
          assert ps[i] == ps'[i];
        }
      }
      forall i, j | 0 <= i < j < |ps|
        ensures ps[i].hour < ps[j].hour
      {
        assert ps[i] == ps'[i];
        if j < |ps'| {
          assert ps[j] == ps'[j];
        }
      }
    }
  }

  /** The inner loop misses no available hour of the day. */
  lemma {:induction false} HourSlotsComplete(hours: seq<Hour>, d: nat)
    ensures forall h :: 0 <= h < |hours| && Truthy(hours[h].available) ==> Pos(d, h) in HourSlots(hours, d)
  {
    if |hours| > 0 {
      var n := |hours| - 1;
      var front := hours[..n];
      HourSlotsComplete(front, d);
      var ps, ps' := HourSlots(hours, d), HourSlots(front, d);
      forall h | 0 <= h < |hours| && Truthy(hours[h].available)
        ensures Pos(d, h) in ps
      {
        if h < n {
          assert front[h] == hours[h];
          assert Pos(d, h) in ps';
        } else {
          assert ps[|ps| - 1] == Pos(d, n);
        }
      }
    }
  }

  /** The inner loop emits one message per available hour of the day, in hour order. */
  lemma HourMessagesEnumerate(hours: seq<Hour>, d: nat)
    ensures |HourSlots(hours, d)| == |HourMessages(hours)|
    ensures forall i :: 0 <= i < |HourSlots(hours, d)| ==>
      var p := HourSlots(hours, d)[i];
      && p.day == d && p.hour < |hours| && Truthy(hours[p.hour].available)
      && HourMessages(hours)[i] == Message(hours[p.hour])
    ensures forall i, j :: 0 <= i < j < |HourSlots(hours, d)| ==>
      HourSlots(hours, d)[i].hour < HourSlots(hours, d)[j].hour
    ensures forall h :: 0 <= h < |hours| && Truthy(hours[h].available) ==> Pos(d, h) in HourSlots(hours, d)
  {
    HourSlotsSourced(hours, d);
    HourSlotsOrdered(hours, d);
    HourSlotsComplete(hours, d);
  }

  /** A position of a prefix of the matrix is the same record in the whole matrix. */
  lemma SlotOfPrefix(matrix: seq<Day>, k: nat, p: Pos)
    requires k <= |matrix|
    ensures IsSlot(matrix[..k], p) <==> p.day < k && IsSlot(matrix, p)
    ensures IsSlot(matrix[..k], p) ==> At(matrix[..k], p) == At(matrix, p)
  {
  }

  /** Every message of the nested loops comes from an available hour record. */
  lemma {:induction false} MatrixMessagesSourced(matrix: seq<Day>)
    ensures Sourced(matrix, MatrixMessages(matrix), MatrixSlots(matrix))
    ensures forall i :: 0 <= i < |MatrixSlots(matrix)| ==> MatrixSlots(matrix)[i].day < |matrix|
  {
    if |matrix| > 0 {
      var n := |matrix| - 1;
      var front := matrix[..n];
      MatrixMessagesSourced(front);
      HourMessagesEnumerate(matrix[n].hours, n);
      var ps', qs := MatrixSlots(front), HourSlots(matrix[n].hours, n);
      var ms', ns := MatrixMessages(front), HourMessages(matrix[n].hours);
      var ps, ms := ps' + qs, ms' + ns;
      forall i | 0 <= i < |ps|
        ensures IsSlot(matrix, ps[i]) && ms[i] == Message(At(matrix, ps[i])) && ps[i].day < |matrix|
      {
        if i < |ps'| {
          assert ps[i] == ps'[i] && ms[i] == ms'[i];
          SlotOfPrefix(matrix, n, ps'[i]);
        } else {
          assert ps[i] == qs[i - |ps'|] && ms[i] == ns[i - |ps'|];
        }
      }
    }
  }

  /** The nested loops visit the available hours in day-then-hour order. */
  lemma {:induction false} MatrixSlotsInOrder(matrix: seq<Day>)
    ensures InOrder(MatrixSlots(matrix))
  {
    if |matrix| > 0 {
      var n := |matrix| - 1;
      var front := matrix[..n];
      MatrixSlotsInOrder(front);
      MatrixMessagesSourced(front);
      HourMessagesEnumerate(matrix[n].hours, n);
      var ps', qs := MatrixSlots(front), HourSlots(matrix[n].hours, n);
      var ps := ps' + qs;
      forall i, j | 0 <= i < j < |ps|
        ensures Before(ps[i], ps[j])
      {
        if j < |ps'| {
          assert ps[i] == ps'[i] && ps[j] == ps'[j];
        } else if i < |ps'| {
          assert ps[i] == ps'[i] && ps[j] == qs[j - |ps'|];
        } else {
          assert ps[i] == qs[i - |ps'|] && ps[j] == qs[j - |ps'|];
        }
      }
    }
  }

  /** The nested loops reach every available hour of the matrix. */
  lemma {:induction false} MatrixSlotsComplete(matrix: seq<Day>)
    ensures Complete(matrix, MatrixSlots(matrix))
  {
    if |matrix| > 0 {
      var n := |matrix| - 1;
      var front := matrix[..n];
      MatrixSlotsComplete(front);
      HourMessagesEnumerate(matrix[n].hours, n);
      var ps', qs := MatrixSlots(front), HourSlots(matrix[n].hours, n);
      forall p | IsSlot(matrix, p)
        ensures p in ps' + qs
      {
        SlotOfPrefix(matrix, n, p);
        if p.day < n {
          assert p in ps';
        } else {
          assert p == Pos(n, p.hour);
          assert p in qs;
        }
      }
    }
  }

  /** The nested loops emit exactly one message per available hour of the
      matrix, in day-then-hour order. */
  lemma MatrixMessagesEnumerate(matrix: seq<Day>)
    ensures Enumerates(matrix, MatrixMessages(matrix), MatrixSlots(matrix))
  {
    MatrixMessagesSourced(matrix);
    MatrixSlotsInOrder(matrix);
    MatrixSlotsComplete(matrix);
  }

  /** Two strictly ordered position lists holding the same positions are equal. */
  lemma {:induction false} InOrderSameElements(a: seq<Pos>, b: seq<Pos>)
    requires InOrder(a) && InOrder(b)
    requires forall p :: p in a <==> p in b
    ensures a == b
    decreases |a|
  {
    if |a| > 0 { assert a[0] in b; }
    if |b| > 0 { assert b[0] in a; }
    if |a| > 0 {
      var x, y := a[|a| - 1], b[|b| - 1];
      assert x in a && y in b;
      var k :| 0 <= k < |b| && b[k] == x;
      var m :| 0 <= m < |a| && a[m] == y;
      assert k < |b| - 1 ==> Before(x, y);
      assert m < |a| - 1 ==> Before(y, x);
      assert x == y;
      var a', b' := a[..|a| - 1], b[..|b| - 1];
      forall p | p in a'
        ensures p in b'
      {
        var i :| 0 <= i < |a'| && a'[i] == p;
        assert Before(a[i], x);
        assert a[i] in a;
        var j :| 0 <= j < |b| && b[j] == p;
        assert b'[j] == p;
      }
      forall p | p in b'
        ensures p in a'
      {
        var j :| 0 <= j < |b'| && b'[j] == p;
        assert Before(b[j], y);
        assert b[j] in b;
        var i :| 0 <= i < |a| && a[i] == p;
        assert a'[i] == p;
      }
      InOrderSameElements(a', b');
      assert a == a' + [x] && b == b' + [y];
    }
  }

  /** `Enumerates` pins down both the messages and their positions: the nested
      loops' output is the only list that satisfies it. */
  lemma EnumeratesUnique(matrix: seq<Day>, a: seq<string>, pa: seq<Pos>, b: seq<string>, pb: seq<Pos>)
    requires Enumerates(matrix, a, pa) && Enumerates(matrix, b, pb)
    ensures pa == pb && a == b
  {
    forall p | p in pa
      ensures p in pb
    {
      var i :| 0 <= i < |pa| && pa[i] == p;
      assert IsSlot(matrix, pa[i]);
    }
    forall p | p in pb
      ensures p in pa
    {
      var i :| 0 <= i < |pb| && pb[i] == p;
      assert IsSlot(matrix, pb[i]);
    }
    InOrderSameElements(pa, pb);
    assert forall i :: 0 <= i < |a| ==> a[i] == Message(At(matrix, pa[i])) == b[i];
  }

  /** The slot loop of the entry point. Nothing is produced unless the response
      is ok; an ok response with an empty `deliveries` list raises
      `IndexError`; otherwise the notifications enumerate the available hours
      of the FIRST delivery's matrix, in day-then-hour order, one each. */
  function Notifications(resp: Response): (r: Scan)
    ensures !resp.ok ==> r == Notify([])
    ensures r == IndexError <==> resp.ok && |resp.deliveries| == 0
    ensures resp.ok && |resp.deliveries| > 0 ==>
      r.Notify? && Enumerates(resp.deliveries[0].matrix, r.messages, MatrixSlots(resp.deliveries[0].matrix))
  {
    if !resp.ok then Notify([])
    else if |resp.deliveries| == 0 then IndexError
    else
      MatrixMessagesEnumerate(resp.deliveries[0].matrix);
      Notify(MatrixMessages(resp.deliveries[0].matrix))
  }

  /** The loops as written: `for day in matrix: for hour in day['hours']: if ...`,
      appending one message per available hour. */
  method CollectNotifications(resp: Response) returns (r: Scan)
    ensures r == Notifications(resp)
  {
    if !resp.ok {
      return Notify([]);
    }
    if |resp.deliveries| == 0 {
      return IndexError;
    }
    var matrix := resp.deliveries[0].matrix;
    var msgs: seq<string> := [];
    var d := 0;
    while d < |matrix|
      invariant 0 <= d <= |matrix|
      invariant msgs == MatrixMessages(matrix[..d])
    {
      var hours := matrix[d].hours;
      var h := 0;
      while h < |hours|
        invariant 0 <= h <= |hours|
        invariant msgs == MatrixMessages(matrix[..d]) + HourMessages(hours[..h])
      {
        if Truthy(hours[h].available) {
          msgs := msgs + [Message(hours[h])];
        }
        assert hours[..h + 1][..h] == hours[..h];
        h := h + 1;
      }
      assert hours[..h] == hours;
      assert matrix[..d + 1][..d] == matrix[..d];
      d := d + 1;
    }
    assert matrix[..d] == matrix;
    return Notify(msgs);
  }

  /** Only the first delivery's matrix is read: responses that agree on the
      `ok` flag and on the first delivery notify identically, whatever follows. */
  lemma OnlyFirstDeliveryRead(a: Response, b: Response)
    requires a.ok == b.ok
    requires |a.deliveries| > 0 && |b.deliveries| > 0
    requires a.deliveries[0] == b.deliveries[0]
    ensures Notifications(a) == Notifications(b)
  {
  }

  /** A response with a single available hour "08:00-10:00" yields the single
      notification "08:00-10:00 :: True". */
  lemma SingleSlotExample()
    ensures var hour := Hour(Bool(true), Str("08:00-10:00"));
      Notifications(Response(true, [Delivery([Day([hour])])])) == Notify(["08:00-10:00 :: True"])
  {
    var hour := Hour(Bool(true), Str("08:00-10:00"));
    var matrix := [Day([hour])];
    var resp := Response(true, [Delivery(matrix)]);
    assert [hour][..0] == [];
    assert matrix[..0] == [];
    assert HourMessages([hour]) == [Message(hour)];
    assert MatrixMessages(matrix) == [Message(hour)];
    assert Message(hour) == "08:00-10:00 :: True";
    assert resp.deliveries[0].matrix == matrix;
    assert Notifications(resp) == Notify(MatrixMessages(matrix));
  }
}
