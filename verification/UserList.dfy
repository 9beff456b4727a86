/** The registered users as the server keeps them: a linked list changed in place. */
module UserList {
  import opened Text
  import opened Users

  class UserNode {
    const name: string
    var password: string
    var userConnected: bool
    var next: UserNode?

    constructor (name: string, password: string, next: UserNode?)
      ensures View() == User(name, password, false) && this.next == next
    {
      this.name, this.password, this.userConnected, this.next := name, password, false, next;
    }

    function View(): User
      reads this
    {
      User(name, password, userConnected)
    }
  }

  function Views(nodes: seq<UserNode>): (views: seq<User>)
    reads nodes
    ensures |views| == |nodes| && forall i | 0 <= i < |nodes| :: views[i] == nodes[i].View()
  {
    if nodes == [] then [] else [nodes[0].View()] + Views(nodes[1..])
  }

  function NodeAt(nodes: seq<UserNode>, i: nat): UserNode? {
    if i < |nodes| then nodes[i] else null
  }

  ghost predicate Linked(nodes: seq<UserNode>)
    reads nodes
  {
    forall i {:trigger nodes[i].next} | 0 <= i < |nodes| :: nodes[i].next == NodeAt(nodes, i + 1)
  }

  /** Nodes with distinct names are distinct. */
  lemma NodesDiffer(nodes: seq<UserNode>, i: nat, j: nat)
    requires UniqueNames(Views(nodes)) && i < |nodes| && j < |nodes| && i != j
    ensures nodes[i] != nodes[j]
  {
    hide Views;
    assert i < j ==> Views(nodes)[i].name != Views(nodes)[j].name;
    assert j < i ==> Views(nodes)[j].name != Views(nodes)[i].name;
    assert Views(nodes)[i] == nodes[i].View() && Views(nodes)[j] == nodes[j].View();
  }

  lemma OthersDiffer(nodes: seq<UserNode>, i: nat)
    requires UniqueNames(Views(nodes)) && i < |nodes|
    ensures forall k | 0 <= k < |nodes| && k != i :: nodes[k] != nodes[i]
  {
    hide Views, UniqueNames;
    forall k | 0 <= k < |nodes| && k != i
      ensures nodes[k] != nodes[i]
    {
      NodesDiffer(nodes, k, i);
    }
  }

  class UserList {
    var head: UserNode?
    var size: nat
    /** The nodes that can be reached from `head`, in order. */
    ghost var nodes: seq<UserNode>

    /** Following `next` from `head` goes through distinct nodes to null, `size` of them, with distinct names. */
    ghost predicate Valid()
      reads this, nodes
    {
      && head == NodeAt(nodes, 0)
      && Linked(nodes)
      && size == |nodes|
      && UniqueNames(Contents())
    }

    ghost function Contents(): seq<User>
      reads this, nodes
    {
      Views(nodes)
    }

    constructor ()
      ensures Valid() && nodes == []
    {
      head, size, nodes := null, 0, [];
    }

    twostate lemma Untouched()
      requires unchanged(this) && unchanged(nodes)
      ensures Contents() == old(Contents()) && (old(Valid()) ==> Valid())
    {
      hide UniqueNames;
    }

    method IsValidPassword(username: string, password: string) returns (found: bool)
      requires Valid()
      ensures found <==> ValidPassword(Contents(), username, password)
    {
      hide Views;
      found := false;
      var current := head;
      ghost var i := 0;
      while current != null && !found
        invariant i <= |nodes|
        invariant !found ==> current == NodeAt(nodes, i)
        invariant !found ==>
                    forall k | 0 <= k < i :: !(Contents()[k].name == username && Contents()[k].password == password)
        invariant found ==> ValidPassword(Contents(), username, password)
        decreases |nodes| - i, !found
      {
        if current.name == username && current.password == password {
          assert Contents()[i] == current.View();
          found := true;
        }
        current := current.next;
        i := i + 1;
      }
    }

    method GetUserNode(username: string) returns (node: UserNode?, ghost i: nat)
      requires Valid()
      ensures i <= |nodes| && node == NodeAt(nodes, i)
      ensures forall k | 0 <= k < i :: nodes[k].name != username
      ensures node != null ==> node.name == username
      ensures Find(Contents(), username) == if node == null then None else Some(node.View())
    {
      hide Views;
      node, i := head, 0;
      FindFrom(Contents(), username, 0);
      while node != null
        invariant i <= |nodes| && node == NodeAt(nodes, i)
        invariant forall k | 0 <= k < i :: nodes[k].name != username
        decreases |nodes| - i
      {
        if node.name == username {
          assert forall k | 0 <= k < i :: Contents()[k].name == nodes[k].name;
          FindFrom(Contents(), username, i);
          return;
        }
        node, i := node.next, i + 1;
      }
      assert forall k | 0 <= k < i :: Contents()[k].name == nodes[k].name;
      FindFrom(Contents(), username, i);
    }

    method UserExists(username: string) returns (exists_: bool)
      requires Valid()
      ensures exists_ <==> Find(Contents(), username).Some?
    {
      var node, _ := GetUserNode(username);
      exists_ := node != null;
    }

    method UserIsConnected(username: string) returns (connected: bool)
      requires Valid()
      ensures connected <==> IsConnected(Contents(), username)
    {
      var node, _ := GetUserNode(username);
      connected := node != null && node.userConnected;
    }

    /** One node's data was changed and nothing else. */
    twostate lemma NodeChanged(i: nat)
      requires old(Valid()) && unchanged(this) && i < |nodes| && nodes[i].next == old(nodes[i].next)
      requires forall k | 0 <= k < |nodes| && k != i :: unchanged(nodes[k])
      ensures Linked(nodes) && Contents() == old(Contents())[i := nodes[i].View()]
    {
      hide Views, UniqueNames;
      assert forall k | 0 <= k < |nodes| :: nodes[k].next == old(nodes[k].next);
    }

    method ToggleUserConnected(username: string, isConnected: bool)
      requires Valid()
      modifies nodes
      ensures Valid() && Contents() == ToggleConnected(old(Contents()), username, isConnected)
    {
      hide Views, UniqueNames, Find, Change, Linked;
      ToggleKeepsMap(Contents(), username, isConnected);
      var node, i := GetUserNode(username);
      assert forall k | 0 <= k < i :: Contents()[k].name == nodes[k].name;
      ChangeAt(Contents(), username, WithConnected(isConnected), i);
      if node != null {
        OthersDiffer(nodes, i);
        node.userConnected := isConnected;
        NodeChanged(i);
      }
    }

    method ModifyUserPassword(username: string, newPassword: string) returns (modified: bool)
      requires Valid()
      modifies nodes
      ensures Valid() && Contents() == ModifyPassword(old(Contents()), username, newPassword)
      ensures modified <==> Find(old(Contents()), username).Some?
    {
      hide Views, UniqueNames, Find, Change, Linked;
      ModifyUpdatesMap(Contents(), username, newPassword);
      var node, i := GetUserNode(username);
      assert forall k | 0 <= k < i :: Contents()[k].name == nodes[k].name;
      ChangeAt(Contents(), username, WithPassword(newPassword), i);
      modified := node != null;
      if modified {
        OthersDiffer(nodes, i);
        node.password := newPassword;
        NodeChanged(i);
      }
    }

    method InsertUserNode(name: string, password: string) returns (inserted: bool)
      requires Valid()
      modifies this
      ensures Valid() && Contents() == Insert(old(Contents()), name, password)
      ensures inserted <==> Find(old(Contents()), name) == None
      ensures nodes == old(nodes) || (|nodes| == |old(nodes)| + 1 && fresh(nodes[0]) && nodes[1..] == old(nodes))
    {
      hide Views, UniqueNames, Find;
      InsertUpdatesMap(Contents(), name, password);
      var found := UserExists(name);
      if found {
        return false;
      }
      var node := new UserNode(name, password, head);
      ghost var before := nodes;
      head := node;
      size := size + 1;
      nodes := [node] + nodes;
      assert nodes[1..] == before && forall i | 0 <= i < |before| :: nodes[i + 1] == before[i];
      assert Contents() == [User(name, password, false)] + old(Contents());
      inserted := true;
    }

    twostate lemma Shortened(i: nat)
      requires i < |old(nodes)| && nodes == old(nodes)[..i] + old(nodes)[i + 1..]
      requires forall k {:trigger old(nodes)[k]} | 0 <= k < |old(nodes)| :: old(nodes)[k].View() == old(nodes[k].View())
      ensures Contents() == old(Contents())[..i] + old(Contents())[i + 1..]
    {
      hide Views, UserNode.View;
      assert forall k | 0 <= k < i :: nodes[k].View() == old(nodes[k].View());
      assert forall k | i <= k < |nodes| :: nodes[k].View() == old(nodes[k + 1].View());
    }

    /** `next` is made to go past node `i`. */
    method Bypass(prev: UserNode?, current: UserNode, ghost i: nat)
      requires Valid() && i < |nodes| && current == nodes[i] && prev == if i == 0 then null else nodes[i - 1]
      modifies this, nodes
      ensures nodes == old(nodes)[..i] + old(nodes)[i + 1..] && size == old(size) - 1
      ensures head == NodeAt(nodes, 0) && Linked(nodes)
      ensures Contents() == old(Contents())[..i] + old(Contents())[i + 1..]
    {
      hide Views, UniqueNames;
      if i > 0 {
        OthersDiffer(nodes, i - 1);
      }
      if prev == null {
        head := current.next;
      } else {
        prev.next := current.next;
      }
      Relinked(i);
      nodes := nodes[..i] + nodes[i + 1..];
      size := size - 1;
      Shortened(i);
    }

    /** After the change of `next` in front of node `i`, the nodes without it are linked. */
    twostate lemma Relinked(i: nat)
      requires old(Linked(nodes)) && nodes == old(nodes) && i < |nodes|
      requires forall k {:trigger nodes[k].next} | 0 <= k < |nodes| && k != i - 1 :: nodes[k].next == old(nodes[k].next)
      requires i > 0 ==> nodes[i - 1].next == nodes[i].next
      ensures Linked(nodes[..i] + nodes[i + 1..])
    {
      var left := nodes[..i] + nodes[i + 1..];
      forall k {:trigger left[k].next} | 0 <= k < |left|
        ensures left[k].next == NodeAt(left, k + 1)
      {
        var m := if k < i then k else k + 1;
        assert left[k] == nodes[m] && old(nodes[m].next) == NodeAt(nodes, m + 1);
        assert old(nodes[i].next) == NodeAt(nodes, i + 1);
      }
    }

    /** The first node of that name and the one in front of it. */
    method FindWithPrevious(name: string) returns (prev: UserNode?, current: UserNode?, ghost i: nat)
      requires Valid()
      ensures i <= |nodes| && current == NodeAt(nodes, i) && prev == if i == 0 then null else nodes[i - 1]
      ensures Delete(Contents(), name) == if i < |nodes| then Contents()[..i] + Contents()[i + 1..] else Contents()
    {
      hide Views, UniqueNames, Linked;
      current, prev, i := head, null, 0;
      while current != null
        modifies {}
        invariant i <= |nodes| && current == NodeAt(nodes, i) && prev == if i == 0 then null else nodes[i - 1]
        invariant forall k | 0 <= k < i :: nodes[k].name != name
        decreases |nodes| - i
      {
        if current.name == name {
          break;
        }
        NextNode(nodes, i);
        prev := current;
        current := current.next;
        i := i + 1;
      }
      assert forall k | 0 <= k < i :: Contents()[k].name == nodes[k].name;
      DeleteAt(Contents(), name, i);
    }

    method DeleteUserNode(name: string)
      requires Valid()
      modifies this, nodes
      ensures Valid() && Contents() == Delete(old(Contents()), name)
      ensures forall n :: n in nodes ==> n in old(nodes)
    {
      hide Views, UniqueNames, Linked, NodeAt;
      DeleteUpdatesMap(Contents(), name);
      var prev, current, i := FindWithPrevious(name);
      AtEnd(nodes, i);
      if current != null {
        Bypass(prev, current, i);
      }
    }

    /** Every node is freed, so only the emptied list is left to speak of. */
    method RemoveAllUserNodes()
      requires Valid()
      modifies this
      ensures Valid() && Contents() == []
    {
      var current := head;
      ghost var i := 0;
      while current != null
        invariant i <= |nodes| && current == NodeAt(nodes, i)
        decreases |nodes| - i
      {
        current := current.next;
        i := i + 1;
      }
      head := null;
      size := 0;
      nodes := [];
    }
  }

  lemma AtEnd(nodes: seq<UserNode>, i: nat)
    ensures NodeAt(nodes, i) == null <==> i >= |nodes|
    ensures i < |nodes| ==> NodeAt(nodes, i) == nodes[i]
  {
  }

  lemma NextNode(nodes: seq<UserNode>, i: nat)
    requires Linked(nodes) && i < |nodes|
    ensures nodes[i].next == NodeAt(nodes, i + 1)
  {
  }

  lemma {:induction false} FindFrom(us: seq<User>, name: string, i: nat)
    requires i <= |us| && forall k | 0 <= k < i :: us[k].name != name
    ensures Find(us, name) == Find(us[i..], name)
  {
    if i == 0 {
      assert us[0..] == us;
    } else {
      assert us[1..][i - 1..] == us[i..];
      FindFrom(us[1..], name, i - 1);
    }
  }

  lemma {:induction false} ChangeAt(us: seq<User>, name: string, f: User -> User, i: nat)
    requires i <= |us| && forall k | 0 <= k < i :: us[k].name != name
    requires i < |us| ==> us[i].name == name
    ensures Change(us, name, f) == if i < |us| then us[i := f(us[i])] else us
  {
    if i > 0 {
      ChangeAt(us[1..], name, f, i - 1);
    } else if us != [] {
      assert us[0 := f(us[0])] == [f(us[0])] + us[1..];
    }
  }

  lemma {:induction false} DeleteAt(us: seq<User>, name: string, i: nat)
    requires i <= |us| && forall k | 0 <= k < i :: us[k].name != name
    requires i < |us| ==> us[i].name == name
    ensures Delete(us, name) == if i < |us| then us[..i] + us[i + 1..] else us
  {
    if i > 0 {
      DeleteAt(us[1..], name, i - 1);
    }
  }
}
