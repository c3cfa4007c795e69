/**
 The set collection's element logic. A set is kept as a sequence without
 repeats; every contract speaks of its members, so the order (the server's
 choice) never matters except for which elements a partial read returns.
 */
module Sets {
  import opened Results
  import opened Struct
  import opened Constants
  import opened Sequences

  /**
   sop_insert into a set limited to `maxcount` members: a value already present
   is ELEM_EXISTS, a new value into a full set is OVERFLOW (sets accept no trim
   policy), and otherwise the value joins the members.
   */
  function SetInsert(s: seq<Bytes>, maxcount: nat, v: Bytes): (r: Result<seq<Bytes>, Status>)
    ensures r == Err(ElemExists) <==> v in s
    ensures r == Err(Overflow) <==> v !in s && |s| >= maxcount
    ensures r.Ok? ==> Members(r.value) == Members(s) + {v} && |r.value| == |s| + 1
    ensures r.Ok? && NoDup(s) ==> NoDup(r.value)
  {
    if v in s then Err(ElemExists)
    else if |s| >= maxcount then Err(Overflow)
    else Ok(s + [v])
  }

  /** The first position holding `v`. */
  function IndexOf(s: seq<Bytes>, v: Bytes): (i: nat)
    requires v in s
    ensures i < |s| && s[i] == v && v !in s[..i]
  {
    if s[0] == v then 0 else 1 + IndexOf(s[1..], v)
  }

  /**
   sop_delete: an absent value is ELEM_NOENT; otherwise the value leaves the
   members and nothing else does.
   */
  function SetRemove(s: seq<Bytes>, v: Bytes): (r: Result<seq<Bytes>, Status>)
    ensures r.Err? <==> v !in s
    ensures r.Err? ==> r.error == ElemNoent
    ensures r.Ok? ==> |r.value| == |s| - 1
    ensures r.Ok? && NoDup(s) ==> NoDup(r.value) && Members(r.value) == Members(s) - {v}
  {
    if v !in s then Err(ElemNoent)
    else
      var i := IndexOf(s, v);
      Ok(s[..i] + s[i + 1..])
  }

  /** sop_exist: the answer is 1 exactly for members. */
  function SetExist(s: seq<Bytes>, v: Bytes): (r: nat)
    ensures r == 1 <==> v in Members(s)
    ensures r == 0 <==> v !in Members(s)
  {
    if v in s then 1 else 0
  }

  /** The members sop_get returns: `count` of them, or all when count is 0 or covers the set. */
  function SetTake(s: seq<Bytes>, count: nat): (r: seq<Bytes>)
    ensures Members(r) <= Members(s)
    ensures count == 0 || count >= |s| ==> Members(r) == Members(s)
    ensures |r| == (if count == 0 || count >= |s| then |s| else count)
  {
    if count == 0 || count >= |s| then s else s[..count]
  }

  /** What a sop_get with delete leaves behind. */
  function SetLeave(s: seq<Bytes>, count: nat): (r: seq<Bytes>)
  {
    if count == 0 || count >= |s| then [] else s[count..]
  }

  /**
   A get with delete removes exactly the members it returns: the two parts
   share no member, together they are the whole set, and the sizes add up.
   */
  lemma TakeLeavePartition(s: seq<Bytes>, count: nat)
    requires NoDup(s)
    ensures Members(SetTake(s, count)) + Members(SetLeave(s, count)) == Members(s)
    ensures Members(SetTake(s, count)) * Members(SetLeave(s, count)) == {}
    ensures |SetTake(s, count)| + |SetLeave(s, count)| == |s|
    ensures NoDup(SetLeave(s, count))
  {
    if !(count == 0 || count >= |s|) {
      assert s == s[..count] + s[count..];
    }
  }

  /** Inserting a new value and deleting it again gives back the original set exactly. */
  lemma InsertThenRemove(s: seq<Bytes>, maxcount: nat, v: Bytes)
    requires v !in s && |s| < maxcount
    ensures SetInsert(s, maxcount, v).Ok?
    ensures SetRemove(SetInsert(s, maxcount, v).value, v) == Ok(s)
  {
    var s' := s + [v];
    assert s'[..|s|] == s;
    assert IndexOf(s', v) == |s|;
    assert s'[..|s|] + s'[|s| + 1..] == s;
  }
}
