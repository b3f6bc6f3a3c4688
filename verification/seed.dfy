/** The pure parts of the database seed: the permission list built by three
    nested loops, the split of those permissions between the admin and user
    roles, the image chosen for each generated user, and the stories each
    generated user receives. Database writes are not modelled. */
module Seed {
  import opened Wrappers

  datatype Entity = UserEntity | StoryEntity | ChapterEntity | CommentEntity
  datatype Action = Create | Read | Update | Delete
  datatype Access = Own | Any

  const Entities: seq<Entity> := [UserEntity, StoryEntity, ChapterEntity, CommentEntity]
  const Actions: seq<Action> := [Create, Read, Update, Delete]
  const Accesses: seq<Access> := [Own, Any]

  datatype Permission = Permission(entity: Entity, action: Action, access: Access)

  /** The innermost loop: one permission per access, in order. */
  function AccessLoop(e: Entity, a: Action): (ps: seq<Permission>)
    ensures |ps| == |Accesses|
    ensures forall k | 0 <= k < |ps| :: ps[k] == Permission(e, a, Accesses[k])
  {
    [Permission(e, a, Own), Permission(e, a, Any)]
  }

  /** The middle loop over the given actions. */
  function ActionLoop(e: Entity, actions: seq<Action>): seq<Permission>
    decreases |actions|
  {
    if |actions| == 0 then [] else AccessLoop(e, actions[0]) + ActionLoop(e, actions[1..])
  }

  /** The outer loop over the given entities. */
  function EntityLoop(entities: seq<Entity>): seq<Permission>
    decreases |entities|
  {
    if |entities| == 0 then [] else ActionLoop(entities[0], Actions) + EntityLoop(entities[1..])
  }

  /** `permissionsToCreate`. */
  function Permissions(): seq<Permission> {
    EntityLoop(Entities)
  }

  lemma {:induction false} ActionLoopIndex(e: Entity, actions: seq<Action>)
    ensures |ActionLoop(e, actions)| == 2 * |actions|
    ensures forall i | 0 <= i < 2 * |actions| ::
      ActionLoop(e, actions)[i] == Permission(e, actions[i / 2], Accesses[i % 2])
    decreases |actions|
  {
    if |actions| > 0 {
      ActionLoopIndex(e, actions[1..]);
      var head, rest := AccessLoop(e, actions[0]), ActionLoop(e, actions[1..]);
      forall i | 0 <= i < 2 * |actions|
        ensures (head + rest)[i] == Permission(e, actions[i / 2], Accesses[i % 2])
      {
        if i >= 2 {
          assert (head + rest)[i] == rest[i - 2];
          assert (i - 2) / 2 == i / 2 - 1 && (i - 2) % 2 == i % 2;
        }
      }
    }
  }

  lemma {:induction false} EntityLoopIndex(entities: seq<Entity>)
    ensures |EntityLoop(entities)| == 8 * |entities|
    ensures forall i | 0 <= i < 8 * |entities| ::
      EntityLoop(entities)[i] == Permission(entities[i / 8], Actions[(i % 8) / 2], Accesses[i % 2])
    decreases |entities|
  {
    if |entities| > 0 {
      EntityLoopIndex(entities[1..]);
      ActionLoopIndex(entities[0], Actions);
      var head, rest := ActionLoop(entities[0], Actions), EntityLoop(entities[1..]);
      forall i | 0 <= i < 8 * |entities|
        ensures (head + rest)[i] == Permission(entities[i / 8], Actions[(i % 8) / 2], Accesses[i % 2])
      {
        if i >= 8 {
          ShiftByEight(i);
          assert (head + rest)[i] == rest[i - 8];
          assert entities[1..][(i - 8) / 8] == entities[i / 8];
        } else {
          BelowEight(i);
          assert (head + rest)[i] == head[i];
        }
      }
    }
  }

  lemma ShiftByEight(i: int)
    requires i >= 8
    ensures (i - 8) / 8 == i / 8 - 1 && (i - 8) % 8 == i % 8 && (i - 8) % 2 == i % 2
  {
  }

  lemma BelowEight(i: int)
    requires 0 <= i < 8
    ensures i / 8 == 0 && i % 8 == i
  {
  }

  /** The permission list in closed form: 32 entries, entity-major, then action,
      then access. */
  lemma PermissionsInOrder()
    ensures |Permissions()| == 32
    ensures forall i | 0 <= i < 32 ::
      Permissions()[i] == Permission(Entities[i / 8], Actions[(i % 8) / 2], Accesses[i % 2])
  {
    EntityLoopIndex(Entities);
  }

  function EntityIndex(e: Entity): (k: nat)
    ensures k < |Entities| && Entities[k] == e
  {
    match e case UserEntity => 0 case StoryEntity => 1 case ChapterEntity => 2 case CommentEntity => 3
  }

  function ActionIndex(a: Action): (k: nat)
    ensures k < |Actions| && Actions[k] == a
  {
    match a case Create => 0 case Read => 1 case Update => 2 case Delete => 3
  }

  function AccessIndex(c: Access): (k: nat)
    ensures k < |Accesses| && Accesses[k] == c
  {
    match c case Own => 0 case Any => 1
  }

  /** The position a permission takes in entity-major order. */
  function PermissionIndex(p: Permission): (i: nat)
    ensures i < 32
  {
    8 * EntityIndex(p.entity) + 2 * ActionIndex(p.action) + AccessIndex(p.access)
  }

  /** Every (entity, action, access) triple sits at its entity-major position. */
  lemma PermissionAtIndex(p: Permission)
    ensures Permissions()[PermissionIndex(p)] == p
  {
    var e, a, c := EntityIndex(p.entity), ActionIndex(p.action), AccessIndex(p.access);
    var i := PermissionIndex(p);
    PermissionsInOrder();
    assert Permissions()[i] == Permission(Entities[i / 8], Actions[(i % 8) / 2], Accesses[i % 2]);
    IndexParts(e, a, c);
    assert i / 8 == e && (i % 8) / 2 == a && i % 2 == c;
  }

  /** The entity-major position splits back into its three indices. */
  lemma IndexParts(e: nat, a: nat, c: nat)
    requires e < 4 && a < 4 && c < 2
    ensures var i := 8 * e + 2 * a + c; i / 8 == e && (i % 8) / 2 == a && i % 2 == c
  {
    var r := 2 * a + c;
    assert 0 <= r < 8;
    assert (8 * e + r) / 8 == e && (8 * e + r) % 8 == r;
    assert r / 2 == a && r % 2 == c;
    assert (8 * e + r) % 2 == r % 2;
  }

  lemma EntityIndexOf(k: nat)
    requires k < |Entities|
    ensures EntityIndex(Entities[k]) == k
  {
    assert k == 0 || k == 1 || k == 2 || k == 3;
  }

  lemma ActionIndexOf(k: nat)
    requires k < |Actions|
    ensures ActionIndex(Actions[k]) == k
  {
    assert k == 0 || k == 1 || k == 2 || k == 3;
  }

  lemma AccessIndexOf(k: nat)
    requires k < |Accesses|
    ensures AccessIndex(Accesses[k]) == k
  {
    assert k == 0 || k == 1;
  }

  /** ... and nowhere else: each position holds the triple of that position. */
  lemma IndexOfPermissionAt(i: nat)
    requires i < 32
    ensures PermissionIndex(Permissions()[i]) == i
  {
    PermissionsInOrder();
    var e, a, c := i / 8, (i % 8) / 2, i % 2;
    assert Permissions()[i] == Permission(Entities[e], Actions[a], Accesses[c]);
    EntityIndexOf(e);
    ActionIndexOf(a);
    AccessIndexOf(c);
    DecomposeIndex(i);
  }

  lemma DecomposeIndex(i: nat)
    ensures 8 * (i / 8) + 2 * ((i % 8) / 2) + i % 2 == i
  {
    var q, r := i / 8, i % 8;
    var a, c := r / 2, r % 2;
    assert i == 8 * q + r;
    assert r == 2 * a + c;
    TwiceAndBit(4 * q + a, c);
  }

  lemma TwiceAndBit(m: int, c: int)
    requires 0 <= c < 2
    ensures (2 * m + c) % 2 == c
  {
  }

  /** Every triple appears exactly once. */
  lemma EachTripleOnce(p: Permission)
    ensures Permissions()[PermissionIndex(p)] == p
    ensures forall i | 0 <= i < |Permissions()| :: Permissions()[i] == p ==> i == PermissionIndex(p)
  {
    PermissionsInOrder();
    PermissionAtIndex(p);
    forall i | 0 <= i < |Permissions()| && Permissions()[i] == p
      ensures i == PermissionIndex(p)
    {
      IndexOfPermissionAt(i);
    }
  }

  // ---------------------------------------------------------------------------
  // Roles
  // ---------------------------------------------------------------------------

  /** `findMany({ where: { access } })`: the permissions with the given access. */
  function WithAccess(ps: seq<Permission>, access: Access): (r: seq<Permission>)
    ensures forall p :: p in r <==> p in ps && p.access == access
    decreases |ps|
  {
    if |ps| == 0 then []
    else (if ps[0].access == access then [ps[0]] else []) + WithAccess(ps[1..], access)
  }

  function AdminPermissions(): seq<Permission> {
    WithAccess(Permissions(), Any)
  }

  function UserPermissions(): seq<Permission> {
    WithAccess(Permissions(), Own)
  }

  /** Every triple is in the permission list. */
  lemma EveryPermissionListed(p: Permission)
    ensures p in Permissions()
  {
    PermissionsInOrder();
    PermissionAtIndex(p);
  }

  /** Over any list holding every triple, the two access filters split it exactly by access. */
  lemma SplitByAccess(ps: seq<Permission>)
    requires forall p: Permission :: p in ps
    ensures forall p: Permission :: p in WithAccess(ps, Any) <==> p.access == Any
    ensures forall p: Permission :: p in WithAccess(ps, Own) <==> p.access == Own
  {
  }

  /** The admin role holds exactly the `any` permissions and the user role exactly
      the `own` ones; as every permission has one access, no permission is in both
      roles and every permission is in one. */
  lemma RolesPartitionPermissions()
    ensures forall p: Permission :: p in AdminPermissions() <==> p.access == Any
    ensures forall p: Permission :: p in UserPermissions() <==> p.access == Own
  {
    var ps := Permissions();
    forall p: Permission
      ensures p in ps
    {
      EveryPermissionListed(p);
    }
    SplitByAccess(ps);
  }

  lemma {:induction false} WithAccessCount(ps: seq<Permission>)
    ensures |WithAccess(ps, Own)| + |WithAccess(ps, Any)| == |ps|
    decreases |ps|
  {
    if |ps| > 0 {
      WithAccessCount(ps[1..]);
    }
  }

  /** Each role holds sixteen permissions. */
  lemma RoleSizes()
    ensures |AdminPermissions()| == 16 && |UserPermissions()| == 16
  {
    PermissionsInOrder();
    var ps := Permissions();
    AlternatingAccessCount(ps);
    WithAccessCount(ps);
  }

  /** In a list whose accesses alternate own, any, own, any, ..., and has even
      length, half the entries are `any`. */
  lemma {:induction false} AlternatingAccessCount(ps: seq<Permission>)
    requires |ps| % 2 == 0
    requires forall i | 0 <= i < |ps| :: ps[i].access == Accesses[i % 2]
    ensures 2 * |WithAccess(ps, Any)| == |ps|
    decreases |ps|
  {
    if |ps| > 0 {
      var rest := ps[2..];
      forall i | 0 <= i < |rest|
        ensures rest[i].access == Accesses[i % 2]
      {
        assert rest[i] == ps[i + 2];
      }
      AlternatingAccessCount(rest);
      assert ps[1..][1..] == rest;
    }
  }

  // ---------------------------------------------------------------------------
  // Generated users
  // ---------------------------------------------------------------------------

  const TotalUsers: nat := 5

  /** `userImages[index % userImages.length]`: the image of generated user
      `index`, or nothing when there are no images (`index % 0` is NaN). */
  function ImageIndex(index: nat, imageCount: nat): (r: Option<nat>)
    ensures r.Some? <==> imageCount > 0
    ensures r.Some? ==> r.value < imageCount
    ensures r.Some? && index < imageCount ==> r.value == index
  {
    if imageCount == 0 then None else Some(index % imageCount)
  }

  datatype SeedStory = SeedStory(chapterCount: nat)

  /** The random outcome for one generated user: how many stories faker drew
      (between 1 and 3), and whether `prisma.user.create` succeeded. A create
      can fail, for instance when two usernames coincide once cut to 20
      characters; the `.catch` logs the error and the loop goes on. The user and
      its nested stories are written by one operation, so a failed create leaves
      no story behind. */
  datatype UserDraw = UserDraw(storyCount: nat, created: bool)

  predicate ValidDraws(draws: seq<UserDraw>) {
    forall i | 0 <= i < |draws| :: 1 <= draws[i].storyCount <= 3
  }

  /** The stories of one generated user: `count` of them, each with one chapter. */
  function UserStories(count: nat): (stories: seq<SeedStory>)
    requires 1 <= count <= 3
    ensures |stories| == count
    ensures forall s | s in stories :: s.chapterCount == 1
  {
    seq(count, _ => SeedStory(1))
  }

  /** The stories the generated users end up owning, in creation order. */
  function AllStories(draws: seq<UserDraw>): seq<SeedStory>
    requires ValidDraws(draws)
    decreases |draws|
  {
    if |draws| == 0 then []
    else
      assert forall i | 0 <= i < |draws[1..]| :: draws[1..][i] == draws[i + 1];
      (if draws[0].created then UserStories(draws[0].storyCount) else []) + AllStories(draws[1..])
  }

  /** The sum of the story counts drawn for the users that were created. */
  function CreatedStoryCount(draws: seq<UserDraw>): nat
    decreases |draws|
  {
    if |draws| == 0 then 0
    else (if draws[0].created then draws[0].storyCount else 0) + CreatedStoryCount(draws[1..])
  }

  /** The number of users that were created. */
  function CreatedUsers(draws: seq<UserDraw>): (n: nat)
    ensures n <= |draws|
    decreases |draws|
  {
    if |draws| == 0 then 0
    else (if draws[0].created then 1 else 0) + CreatedUsers(draws[1..])
  }

  /** The seeded stories are the drawn counts of the created users added up:
      between one and three per created user, none for a failed one, each
      with one chapter. */
  lemma {:induction false} StoryTotals(draws: seq<UserDraw>)
    requires ValidDraws(draws)
    ensures |AllStories(draws)| == CreatedStoryCount(draws)
    ensures CreatedUsers(draws) <= |AllStories(draws)| <= 3 * CreatedUsers(draws)
    ensures forall s | s in AllStories(draws) :: s.chapterCount == 1
    decreases |draws|
  {
    if |draws| > 0 {
      assert forall i | 0 <= i < |draws[1..]| :: draws[1..][i] == draws[i + 1];
      StoryTotals(draws[1..]);
    }
  }

  /** The five generated users own at most 15 stories in all, and at least 5
      when every create succeeds. */
  lemma SeededStoryCount(draws: seq<UserDraw>)
    requires |draws| == TotalUsers && ValidDraws(draws)
    ensures |AllStories(draws)| <= 15
    ensures CreatedUsers(draws) == TotalUsers ==> 5 <= |AllStories(draws)|
  {
    StoryTotals(draws);
  }
}
