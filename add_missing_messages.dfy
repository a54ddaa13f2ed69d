/** add-missing-messages.js: two messages missing from the list (one from
    Giorgio & Kelcey, one picture from Haley) are pushed onto it and the list is
    sorted by time, oldest first. Each new id reads the clock and draws a random
    text: the parameters `clock` and `rand`, functions of the draw's number. */
module AddMissingMessages {
  import opened Wrappers
  import opened Strings
  import opened Messages
  import opened Sorting

  /** `restored_${Date.now()}_${Math.random().toString(36).substr(2, 8)}`. */
  function DrawnId(clock: nat -> nat, rand: nat -> string, draw: nat): string {
    "restored_" + NatToString(clock(draw)) + "_" + rand(draw)
  }

  const GiorgioName: string := "Giorgio & Kelcey"
  const GiorgioText: string :=
    "Happy 29th birthday Britt \U{1F973} wishing you an amazing new year ahead filled with love and happiness \U{2764}\U{FE0F}"
  /** 2025-09-12T18:51:20.539Z in milliseconds since the epoch. */
  const GiorgioTime: int := 1757703080539

  const HaleyName: string := "Haley"
  const HaleyText: string := "Shared a favorite picture! \U{1F4F8}\U{1F495}"
  /** 2025-09-12T18:52:30.539Z. */
  const HaleyTime: int := 1757703150539
  const HaleyUrl: string := "https://5fk1qrmoyae10nba.public.blob.vercel-storage.com/image-1757711371342ui5knmlc4.jpg"

  /** `giorgioMessage`, numbered after the `n` messages already there. */
  function Giorgio(n: nat, id: string): Message {
    Message(GiorgioName, GiorgioText, Missing, Missing, Str(id), GiorgioTime, None, Some(n + 1))
  }

  /** `haleyMessage`, numbered second after the `n` messages already there. */
  function Haley(n: nat, id: string): Message {
    Message(HaleyName, HaleyText, Missing, Str(HaleyUrl), Str(id), HaleyTime, Some(true), Some(n + 2))
  }

  /** The two pushes and the sort, on the script's array. */
  method AddMissingMessages(messages: seq<Message>, clock: nat -> nat, rand: nat -> string)
    returns (result: seq<Message>)
    ensures result == SortByTime(
      messages + [Giorgio(|messages|, DrawnId(clock, rand, 0)), Haley(|messages|, DrawnId(clock, rand, 1))],
      Ascending)
  {
    var n := |messages|;
    var giorgio := Giorgio(n, DrawnId(clock, rand, 0));
    var haley := Haley(n, DrawnId(clock, rand, 1));
    var pushed := messages + [giorgio, haley];
    var a := new Message[n + 2](i requires 0 <= i < n + 2 => pushed[i]);
    assert a[..] == pushed;
    SortInPlace(a, Ascending);
    result := a[..];
  }

  /** The result holds the old messages, unchanged, and the two new ones,
      nothing else; it is sorted oldest first, messages of equal time keep the
      order they had after the pushes, and the new records keep the numbers
      n + 1 and n + 2 given before the sort. Only Haley's record has an image,
      and it is a stored one. */
  lemma AddMissingMessagesFacts(messages: seq<Message>, g: string, h: string)
    ensures var n := |messages|;
      var r := SortByTime(messages + [Giorgio(n, g), Haley(n, h)], Ascending);
      |r| == n + 2 &&
      multiset(r) == multiset(messages) + multiset{Giorgio(n, g), Haley(n, h)} &&
      Sorted(r, Ascending) &&
      (forall t :: WithTime(r, t) == WithTime(messages + [Giorgio(n, g), Haley(n, h)], t)) &&
      Giorgio(n, g) in r && Haley(n, h) in r &&
      Giorgio(n, g).messageIndex == Some(n + 1) && Haley(n, h).messageIndex == Some(n + 2) &&
      !Truthy(Giorgio(n, g).image) && !Truthy(Giorgio(n, g).imageUrl) && Giorgio(n, g).hasImage.None? &&
      !Truthy(Haley(n, h).image) && Truthy(Haley(n, h).imageUrl) && Haley(n, h).hasImage == Some(true)
  {
    var n := |messages|;
    var pushed := messages + [Giorgio(n, g), Haley(n, h)];
    SortByTimePermutes(pushed, Ascending);
    SortByTimeSorted(pushed, Ascending);
    forall t ensures WithTime(SortByTime(pushed, Ascending), t) == WithTime(pushed, t) {
      SortByTimeStable(pushed, Ascending, t);
    }
    assert multiset(pushed) == multiset(messages) + multiset{Giorgio(n, g), Haley(n, h)};
    assert Giorgio(n, g) in multiset(SortByTime(pushed, Ascending));
    assert Haley(n, h) in multiset(SortByTime(pushed, Ascending));
  }
}
