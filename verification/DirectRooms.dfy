/** Room names: their type prefix, and the two users that a direct-message room names. */
module DirectRooms {
  import opened Options
  import opened RoomStore

  const PUBLIC_PREFIX := "public:"
  const GROUP_PREFIX := "group:"
  const DM_PREFIX := "dm:"

  predicate HasPrefix(s: string, prefix: string) {
    prefix <= s
  }

  /** The type that a room ID spells. */
  function TypeOf(roomID: string): Option<RoomType> {
    if HasPrefix(roomID, PUBLIC_PREFIX) then Some(Public)
    else if HasPrefix(roomID, GROUP_PREFIX) then Some(Group)
    else if HasPrefix(roomID, DM_PREFIX) then Some(DM)
    else None
  }

  lemma PrefixesAreExclusive(roomID: string)
    ensures HasPrefix(roomID, PUBLIC_PREFIX) <==> TypeOf(roomID) == Some(Public)
    ensures HasPrefix(roomID, GROUP_PREFIX) <==> TypeOf(roomID) == Some(Group)
    ensures HasPrefix(roomID, DM_PREFIX) <==> TypeOf(roomID) == Some(DM)
    ensures TypeOf(roomID) == Some(Public) <==> |roomID| >= 7 && roomID[..7] == "public:"
    ensures TypeOf(roomID) == Some(Group) <==> |roomID| >= 6 && roomID[..6] == "group:"
    ensures TypeOf(roomID) == Some(DM) <==> |roomID| >= 3 && roomID[..3] == "dm:"
  {
    assert PUBLIC_PREFIX[0] == 'p' && GROUP_PREFIX[0] == 'g' && DM_PREFIX[0] == 'd';
  }

  /** The order of strings that sort.Strings uses. */
  predicate Less(a: string, b: string) {
    if b == "" then false
    else if a == "" then true
    else if a[0] != b[0] then a[0] < b[0]
    else Less(a[1..], b[1..])
  }

  lemma {:induction false} LessIsTotal(a: string, b: string)
    ensures a != b ==> (Less(a, b) <==> !Less(b, a))
    ensures !Less(a, a)
  {
    if a != "" {
      LessIsTotal(a[1..], if b != "" then b[1..] else "");
      if b != "" {
        assert a == [a[0]] + a[1..] && b == [b[0]] + b[1..];
      }
    }
  }

  /** The lexicographic order: the strings part at some place, or the first is a proper prefix of the second. */
  lemma {:induction false} LessExactly(a: string, b: string)
    ensures Less(a, b) <==>
              exists i: nat :: i <= |a| && i <= |b| && a[..i] == b[..i]
                               && (i == |a| < |b| || (i < |a| && i < |b| && a[i] < b[i]))
  {
    if a == "" || b == "" || a[0] != b[0] {
      assert a[..0] == b[..0];
      assert forall i: nat :: 0 < i <= |a| && i <= |b| && a[..i] == b[..i] ==> a[..i][0] == b[..i][0];
    } else {
      LessExactly(a[1..], b[1..]);
      if Less(a, b) {
        var i: nat :| i <= |a[1..]| && i <= |b[1..]| && a[1..][..i] == b[1..][..i]
                      && (i == |a[1..]| < |b[1..]| || (i < |a[1..]| && i < |b[1..]| && a[1..][i] < b[1..][i]));
        assert a[..i + 1] == [a[0]] + a[1..][..i] && b[..i + 1] == [b[0]] + b[1..][..i];
      }
      if i: nat :| i <= |a| && i <= |b| && a[..i] == b[..i] && (i == |a| < |b| || (i < |a| && i < |b| && a[i] < b[i])) {
        assert a[1..][..i - 1] == a[..i][1..] && b[1..][..i - 1] == b[..i][1..];
      }
    }
  }

  function Sorted(user1: string, user2: string): (string, string) {
    if Less(user2, user1) then (user2, user1) else (user1, user2)
  }

  function DMRoomID(user1: string, user2: string): string {
    var users := Sorted(user1, user2);
    DM_PREFIX + users.0 + "_" + users.1
  }

  /**
   * The room of two users, spelled out: if the IDs part at `i`, the one with the smaller character
   * there comes first, and an ID comes before one that it is a proper prefix of.
   */
  lemma DMRoomIDSpelled(a: string, b: string, i: nat)
    requires i <= |a| && i <= |b| && a[..i] == b[..i]
    requires i == |a| <= |b| || (i < |a| && i < |b| && a[i] < b[i])
    ensures DMRoomID(a, b) == DMRoomID(b, a) == "dm:" + a + "_" + b
  {
    LessExactly(a, b);
    LessIsTotal(a, b);
    if |a| == |b| == i {
      assert a == a[..i] == b[..i] == b;
    }
  }

  /** strings.Split at every underscore. */
  function Split(s: string): (parts: seq<string>)
    ensures |parts| > 0
  {
    if s == "" then [""]
    else
      var parts := Split(s[1..]);
      if s[0] == '_' then [""] + parts else [[s[0]] + parts[0]] + parts[1..]
  }

  predicate NoUnderscore(s: string) {
    '_' !in s
  }

  lemma {:induction false} SplitJoins(a: string, b: string)
    ensures Split(a + "_" + b) == Split(a) + Split(b)
  {
    if a == "" {
      assert (a + "_" + b)[1..] == b;
    } else {
      assert (a + "_" + b)[1..] == a[1..] + "_" + b;
      SplitJoins(a[1..], b);
    }
  }

  /** The parts have no underscore, and a string without one is its only part. */
  lemma {:induction false} PartsHaveNoUnderscore(s: string)
    ensures forall p :: p in Split(s) ==> NoUnderscore(p)
    ensures NoUnderscore(s) <==> s in Split(s)
    ensures NoUnderscore(s) ==> Split(s) == [s]
  {
    if s != "" {
      PartsHaveNoUnderscore(s[1..]);
      assert s == [s[0]] + s[1..];
      assert '_' in s <==> s[0] == '_' || '_' in s[1..];
      var parts := Split(s[1..]);
      forall p | p in Split(s) ensures NoUnderscore(p) {
        assert p in parts || p == "" || (s[0] != '_' && p == [s[0]] + parts[0]);
        assert parts[0] in parts;
      }
    }
  }

  /** Whom the permission check lets into a direct-message room. */
  predicate Admits(roomID: string, userID: string) {
    HasPrefix(roomID, DM_PREFIX) && userID in Split(roomID[|DM_PREFIX|..])
  }

  /** `s[i..j]` is `part`, has no underscore, and lies between two of them or the ends. */
  predicate PartAt(s: string, part: string, i: nat, j: nat) {
    && i <= j <= |s| && s[i..j] == part && '_' !in part
    && (i == 0 || s[i - 1] == '_') && (j == |s| || s[j] == '_')
  }

  ghost predicate IsPart(s: string, part: string) {
    exists i: nat, j: nat :: PartAt(s, part, i, j)
  }

  /** Any ID at all: the permission check lets in exactly the parts between underscores, behind "dm:". */
  lemma AdmitsExactly(roomID: string, userID: string)
    ensures Admits(roomID, userID) <==>
              && |roomID| >= 3 && roomID[..3] == "dm:"
              && IsPart(roomID[3..], userID)
  {
    if |roomID| >= 3 && roomID[..3] == "dm:" {
      SplitExactly(roomID[3..], userID);
    }
  }

  lemma {:induction false} SplitExactly(s: string, u: string)
    ensures u in Split(s) <==> IsPart(s, u)
    decreases |s|
  {
    if NoUnderscore(s) {
      PartsHaveNoUnderscore(s);
      assert s[0..|s|] == s;
      assert PartAt(s, s, 0, |s|);
      assert forall i: nat, j: nat :: PartAt(s, u, i, j) ==> i == 0 && j == |s|;
    } else {
      var k := FirstUnderscore(s);
      var a, b := s[..k], s[k + 1..];
      assert s == a + "_" + b;
      SplitJoins(a, b);
      PartsHaveNoUnderscore(a);
      SplitExactly(b, u);
      PartsOfJoin(s, k, u);
    }
  }

  lemma FirstUnderscore(s: string) returns (k: nat)
    requires !NoUnderscore(s)
    ensures k < |s| && s[k] == '_' && NoUnderscore(s[..k])
  {
    if s[0] == '_' {
      k := 0;
    } else {
      assert s == [s[0]] + s[1..];
      var l := FirstUnderscore(s[1..]);
      k := l + 1;
      assert s[..k] == [s[0]] + s[1..][..l];
    }
  }

  lemma NoneInside(s: string, i: nat, j: nat, k: nat)
    requires i <= k < j <= |s| && '_' !in s[i..j]
    ensures s[k] != '_'
  {
    assert s[k] == s[i..j][k - i];
  }

  /** A part is what comes before the first underscore, or a part of what comes after it. */
  lemma PartsOfJoin(s: string, k: nat, u: string)
    requires k < |s| && s[k] == '_' && NoUnderscore(s[..k])
    ensures IsPart(s, u) <==> u == s[..k] || IsPart(s[k + 1..], u)
  {
    var b := s[k + 1..];
    if u == s[..k] {
      assert PartAt(s, u, 0, k);
    }
    if i: nat, j: nat :| PartAt(b, u, i, j) {
      assert s[k + 1 + i..k + 1 + j] == b[i..j];
      assert PartAt(s, u, k + 1 + i, k + 1 + j);
    }
    if i: nat, j: nat :| PartAt(s, u, i, j) {
      if i <= k {
        assert forall l :: 0 <= l < k ==> s[l] == s[..k][l];
        assert i == 0;
        if j > k {
          NoneInside(s, i, j, k);
        }
        assert j == k && s[0..k] == s[..k];
      } else {
        assert b[i - k - 1..j - k - 1] == s[i..j];
        assert PartAt(b, u, i - k - 1, j - k - 1);
      }
    }
  }

  /** The order of the two users does not matter. */
  lemma DMRoomIDSymmetric(user1: string, user2: string)
    ensures DMRoomID(user1, user2) == DMRoomID(user2, user1)
  {
    LessIsTotal(user1, user2);
  }

  /** Who is admitted: exactly the underscore-separated parts of the two user IDs. */
  lemma DMAdmitsParts(user1: string, user2: string)
    ensures forall v :: Admits(DMRoomID(user1, user2), v) <==> v in Split(user1) || v in Split(user2)
  {
    var (a, b) := Sorted(user1, user2);
    var id := DMRoomID(user1, user2);
    assert id == DM_PREFIX + (a + "_" + b);
    assert id[|DM_PREFIX|..] == a + "_" + b;
    SplitJoins(a, b);
  }

  /**
   * The room of two users admits exactly those two if and only if neither ID has an underscore;
   * a user whose own ID has one is always kept out of his own room.
   */
  lemma DMPermissionExact(user1: string, user2: string)
    ensures (forall v :: Admits(DMRoomID(user1, user2), v) <==> v == user1 || v == user2)
            <==> NoUnderscore(user1) && NoUnderscore(user2)
    ensures Admits(DMRoomID(user1, user2), user1) <==> NoUnderscore(user1)
  {
    var id := DMRoomID(user1, user2);
    DMAdmitsParts(user1, user2);
    PartsHaveNoUnderscore(user1);
    PartsHaveNoUnderscore(user2);
    assert Admits(id, user1) ==> NoUnderscore(user1);
    assert Admits(id, user2) ==> NoUnderscore(user2);
  }

  predicate SamePair(a: string, b: string, c: string, d: string) {
    (a == c && b == d) || (a == d && b == c)
  }

  /** The two users of a room ID, in order and joined by an underscore. */
  function Joined(user1: string, user2: string): string {
    Sorted(user1, user2).0 + "_" + Sorted(user1, user2).1
  }

  /** An underscore of `s`, other than the joint at `joint`, that also parts it into two ordered IDs. */
  predicate SplitsElsewhere(s: string, joint: nat, i: nat) {
    i < |s| && i != joint && s[i] == '_' && !Less(s[i + 1..], s[..i])
  }

  lemma SortedOrder(a: string, b: string)
    ensures var (x, y) := Sorted(a, b);
            && !Less(y, x) && Sorted(x, y) == (x, y) && SamePair(a, b, x, y)
    ensures !Less(b, a) ==> Sorted(a, b) == (a, b)
    ensures Sorted(a, b) == Sorted(b, a)
  {
    LessIsTotal(a, b);
  }

  lemma SameRoomIsSameJoin(a: string, b: string, c: string, d: string)
    ensures DMRoomID(a, b) == DMRoomID(c, d) <==> Joined(a, b) == Joined(c, d)
  {
    assert DMRoomID(a, b) == DM_PREFIX + Joined(a, b) && DMRoomID(c, d) == DM_PREFIX + Joined(c, d);
    assert (DM_PREFIX + Joined(a, b))[|DM_PREFIX|..] == Joined(a, b);
    assert (DM_PREFIX + Joined(c, d))[|DM_PREFIX|..] == Joined(c, d);
  }

  /** Two different pairs with one room part its ID at different underscores. */
  lemma CollisionSplitsElsewhere(a: string, b: string, c: string, d: string)
    requires DMRoomID(a, b) == DMRoomID(c, d) && !SamePair(a, b, c, d)
    ensures SplitsElsewhere(Joined(a, b), |Sorted(a, b).0|, |Sorted(c, d).0|)
  {
    hide Less, Sorted;
    SameRoomIsSameJoin(a, b, c, d);
    SortedOrder(a, b);
    SortedOrder(c, d);
    var (x, y) := Sorted(a, b);
    var (u, v) := Sorted(c, d);
    var s := Joined(a, b);
    assert s == x + "_" + y && s == u + "_" + v;
    assert s[..|u|] == u && s[|u| + 1..] == v && s[..|x|] == x && s[|x| + 1..] == y;
  }

  /** Another such underscore gives another pair with the same room. */
  lemma SplitGivesCollision(a: string, b: string, i: nat)
    requires SplitsElsewhere(Joined(a, b), |Sorted(a, b).0|, i)
    ensures var s := Joined(a, b);
            DMRoomID(s[..i], s[i + 1..]) == DMRoomID(a, b) && !SamePair(a, b, s[..i], s[i + 1..])
  {
    hide Less, Sorted;
    var s := Joined(a, b);
    var c, d := s[..i], s[i + 1..];
    SortedOrder(c, d);
    SortedOrder(a, b);
    assert s == c + "_" + d;
    SameRoomIsSameJoin(c, d, a, b);
    assert SamePair(a, b, c, d) ==> Sorted(a, b) == Sorted(c, d);
  }

  /**
   * A pair of users shares its room with another pair if and only if the joined IDs have a second
   * underscore at which they also part into two IDs in order.
   */
  lemma DMRoomSharedExactly(a: string, b: string)
    ensures (exists c, d :: DMRoomID(c, d) == DMRoomID(a, b) && !SamePair(a, b, c, d))
            <==> exists i: nat :: SplitsElsewhere(Joined(a, b), |Sorted(a, b).0|, i)
  {
    if c, d :| DMRoomID(c, d) == DMRoomID(a, b) && !SamePair(a, b, c, d) {
      CollisionSplitsElsewhere(a, b, c, d);
    }
    if i: nat :| SplitsElsewhere(Joined(a, b), |Sorted(a, b).0|, i) {
      SplitGivesCollision(a, b, i);
    }
  }

  /** Two users whose IDs have no underscore share their room with no other pair, whatever its IDs. */
  lemma DMRoomIDInjective(a: string, b: string, c: string, d: string)
    requires NoUnderscore(a) && NoUnderscore(b)
    ensures DMRoomID(a, b) == DMRoomID(c, d) <==> SamePair(a, b, c, d)
  {
    DMRoomIDSymmetric(a, b);
    OnlyJoint(a, b);
    if DMRoomID(a, b) == DMRoomID(c, d) && !SamePair(a, b, c, d) {
      CollisionSplitsElsewhere(a, b, c, d);
    }
  }

  lemma OnlyJoint(a: string, b: string)
    requires NoUnderscore(a) && NoUnderscore(b)
    ensures forall i: nat :: !SplitsElsewhere(Joined(a, b), |Sorted(a, b).0|, i)
  {
    var (x, y) := Sorted(a, b);
    assert forall i :: 0 <= i < |Joined(a, b)| && i != |x| ==>
             Joined(a, b)[i] == if i < |x| then x[i] else y[i - |x| - 1];
  }

  /** A pair that is parted elsewhere, and the pair it shares its room with. */
  lemma UnderscoresCollide()
    ensures SplitsElsewhere(Joined("a_b", "c"), |Sorted("a_b", "c").0|, 1)
    ensures DMRoomID("a", "b_c") == DMRoomID("a_b", "c") && !SamePair("a_b", "c", "a", "b_c")
  {
    assert Less("a_b", "c") && Less("a", "b_c");
    LessIsTotal("a_b", "c");
    LessIsTotal("a", "b_c");
    var s := Joined("a_b", "c");
    assert s == "a_b_c" && s[..1] == "a" && s[2..] == "b_c";
    SplitGivesCollision("a_b", "c", 1);
  }

  lemma DMRoomIDIsDM(user1: string, user2: string)
    ensures TypeOf(DMRoomID(user1, user2)) == Some(DM)
  {
    var (a, b) := Sorted(user1, user2);
    assert DMRoomID(user1, user2) == DM_PREFIX + (a + "_" + b);
    PrefixesAreExclusive(DMRoomID(user1, user2));
  }
}
