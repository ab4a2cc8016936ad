/** The usage examples and test cases of the iterator, as verified clients. */
module SubstrIteratorTests {
  import opened Wrappers
  import opened SubstrIterator

  /** The documented example: the first trigram of an ASCII and of a Chinese text. */
  method DocExample() returns (first: Option<seq<char>>, firstChinese: Option<seq<char>>)
    ensures first == Some(['w', 'h', 'a'])
    ensures firstChinese == Some(['今', '天', '我'])
  {
    var iter := new SubstrIter.From("whatever", 3);
    first := iter.Next();
    assert "whatever"[0..3] == ['w', 'h', 'a'];
    var chinese := new SubstrIter.From("今天我吃饭", 3);
    firstChinese := chinese.Next();
    assert "今天我吃饭"[0..3] == ['今', '天', '我'];
  }

  /** Collecting the trigrams of "whatever" gives its six overlapping windows. */
  method ShouldWorkWithSimpleCharacters() returns (all: seq<seq<char>>)
    ensures all == ["wha", "hat", "ate", "tev", "eve", "ver"]
  {
    var text := "whatever";
    all := CollectAll(text, 3);
    assert text[0..3] == "wha" && text[1..4] == "hat" && text[2..5] == "ate";
    assert text[3..6] == "tev" && text[4..7] == "eve" && text[5..8] == "ver";
  }

  /** Collecting the trigrams of a five-character Chinese text gives three windows. */
  method ShouldWorkWithChineseCharacters() returns (all: seq<seq<char>>)
    ensures all == ["今天我", "天我吃", "我吃饭"]
  {
    var text := "今天我吃饭";
    all := CollectAll(text, 3);
    assert text[0..3] == "今天我" && text[1..4] == "天我吃" && text[2..5] == "我吃饭";
  }

  /** A text shorter than the window yields nothing, on the very first call. */
  method ShortTextYieldsNothing() returns (first: Option<seq<char>>)
    ensures first == None
  {
    var iter := new SubstrIter.From("ab", 3);
    first := iter.Next();
  }
}
