// What the keys do: where the cursor goes and which records are opened and closed.
module TrackerKeys {
  import opened ApTypes
  import opened TrackerModel
  import opened TrackerRuns

  // n presses of a key.
  ghost function Presses(t: Tracker, key: Key, height: int, n: nat): (u: Tracker)
    requires Inv(t) && height >= 0
    ensures Inv(u)
  {
    if n == 0 then t
    else
      var u := Presses(t, key, height, n - 1);
      KeyKeepsInv(u, key, height);
      KeyStep(u, key, height)
  }

  // A state that differs in the cursor only.
  predicate At(u: Tracker, t: Tracker, scroll: int) {
    0 <= scroll < 0x100 && u == t.(scroll := scroll)
  }

  // n presses of Up end n above, or at the top.
  lemma {:induction false} UpPresses(t: Tracker, height: int, n: nat)
    requires Inv(t) && height >= 0
    ensures At(Presses(t, Up, height, n), t, if n <= t.scroll then t.scroll - n else 0)
  {
    if n > 0 {
      UpPresses(t, height, n - 1);
    }
  }

  // n presses of Down end n below, or where the window reaches the last access point, if the cursor
  // was not beyond that already; on the way it stays within eight bits.
  lemma {:induction false} DownPresses(t: Tracker, height: int, n: nat)
    requires Inv(t) && height >= 0 && t.count - height <= 0xff
    ensures At(Presses(t, Down, height, n), t,
               if t.scroll + n + height <= t.count then t.scroll + n
               else if t.scroll + height <= t.count then t.count - height else t.scroll)
  {
    if n > 0 {
      DownPresses(t, height, n - 1);
    }
  }

  // Eight bits: from 255 Down goes to the top when there is more to see below.
  lemma DownWraps(t: Tracker, height: int)
    requires Inv(t) && height >= 0 && t.scroll == 255 && 255 + height < t.count
    ensures At(KeyStep(t, Down, height), t, 0)
  {
  }

  // Up takes back a Down that moved the cursor to the next access point, and only such a one.
  lemma UpUndoesDown(t: Tracker, height: int)
    requires Inv(t) && height >= 0
    ensures var u := KeyStep(t, Down, height);
      KeyStep(u, Up, height) == t <==> (t.scroll + height < t.count && t.scroll < 255) || (u == t && t.scroll == 0)
  {
  }

  lemma TopIsZero(t: Tracker, height: int)
    requires Inv(t)
    ensures At(KeyStep(t, Top, height), t, 0)
  {
  }

  // Bottom puts the last access point at the end of the window, as far as eight bits go, or goes to
  // the top when all of them fit.
  lemma BottomShowsLast(t: Tracker, height: int)
    requires Inv(t) && height >= 0
    ensures var u := KeyStep(t, Bottom, height);
      && At(u, t, u.scroll)
      && (t.count <= height ==> u.scroll == 0)
      && (height < t.count <= height + 255 ==> u.scroll + height == t.count)
      && (t.count > height ==> (u.scroll + height - t.count) % 256 == 0)
  {
  }

  // Open and Close set the view of the record at the cursor.
  lemma OpenAndClose(t: Tracker, height: int)
    requires Inv(t)
    ensures var u, v := KeyStep(t, Open, height), KeyStep(t, Close, height);
      && u == t.(aps := u.aps) && v == t.(aps := v.aps) && |u.aps| == |v.aps| == |t.aps|
      && (forall i | 0 <= i < |t.aps| ::
            u.aps[i] == if i == t.scroll then t.aps[i].(view := Detail) else t.aps[i])
      && (forall i | 0 <= i < |t.aps| ::
            v.aps[i] == if i == t.scroll then t.aps[i].(view := Main) else t.aps[i])
  {
  }

  // OpenAll and CloseAll set the views of the tracked records.
  lemma OpenAllAndCloseAll(t: Tracker, height: int)
    requires Inv(t)
    ensures var u, v := KeyStep(t, OpenAll, height), KeyStep(t, CloseAll, height);
      && u == t.(aps := u.aps) && v == t.(aps := v.aps) && |u.aps| == |v.aps| == |t.aps|
      && (forall i | 0 <= i < |t.aps| ::
            u.aps[i] == if i < t.count then t.aps[i].(view := Detail) else t.aps[i])
      && (forall i | 0 <= i < |t.aps| ::
            v.aps[i] == if i < t.count then t.aps[i].(view := Main) else t.aps[i])
  {
  }
}
