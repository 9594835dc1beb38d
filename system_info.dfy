/**
 * `get_system_info`: totals over the user and conversation tables, after a
 * forced refresh of the activity counters. The conversation table is an input
 * sequence, and the process start time is a parameter.
 */
module SystemInfo {
  import opened Optional
  import opened ActivityCounters

  /** A conversation row, reduced to its validity flag. */
  datatype Conversation = Conversation(isValid: bool)

  /** How many conversations are marked valid; never more than there are conversations. */
  function ValidCount(conversations: seq<Conversation>): (n: nat)
    ensures n <= |conversations|
  {
    if conversations == [] then 0
    else
      ValidCount(conversations[..|conversations| - 1])
      + (if conversations[|conversations| - 1].isValid then 1 else 0)
  }

  /** Every conversation is counted exactly when every one is valid. */
  lemma {:induction false} AllValidIffFullCount(conversations: seq<Conversation>)
    ensures ValidCount(conversations) == |conversations|
        <==> forall i :: 0 <= i < |conversations| ==> conversations[i].isValid
    decreases |conversations|
  {
    if conversations != [] {
      var init := conversations[..|conversations| - 1];
      AllValidIffFullCount(init);
      if forall i :: 0 <= i < |conversations| ==> conversations[i].isValid {
        assert forall i :: 0 <= i < |init| ==> init[i].isValid by {
          forall i | 0 <= i < |init| ensures init[i].isValid {
            assert init[i] == conversations[i];
          }
        }
      }
    }
  }

  /** No conversation is counted exactly when none is valid. */
  lemma {:induction false} NoneValidIffZeroCount(conversations: seq<Conversation>)
    ensures ValidCount(conversations) == 0
        <==> forall i :: 0 <= i < |conversations| ==> !conversations[i].isValid
    decreases |conversations|
  {
    if conversations != [] {
      var init := conversations[..|conversations| - 1];
      NoneValidIffZeroCount(init);
      if forall i :: 0 <= i < |conversations| ==> !conversations[i].isValid {
        assert forall i :: 0 <= i < |init| ==> !init[i].isValid by {
          forall i | 0 <= i < |init| ensures !init[i].isValid {
            assert init[i] == conversations[i];
          }
        }
      }
    }
  }

  /** The `SystemInfo` response. */
  datatype Info = Info(startupTime: int, totalUserCount: nat, totalConversationCount: nat, validConversationCount: nat)

  method GetSystemInfo(cache: UsersCache, startupTime: int, now: int, users: seq<User>, conversations: seq<Conversation>)
    returns (info: Info)
    requires cache.Valid()
    modifies cache
    ensures cache.Valid() && cache.entry == Some(Summary(users, now)) && cache.stamp == Some(now)
    ensures info.startupTime == startupTime
    ensures info.totalUserCount == |users|
    ensures info.totalConversationCount == |conversations|
    ensures info.validConversationCount == ValidCount(conversations) <= info.totalConversationCount
  {
    var snapshot := cache.CheckUsers(true, now, users);
    info := Info(startupTime, |snapshot.users|, |conversations|, ValidCount(conversations));
  }
}
