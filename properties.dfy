/** Properties of the composite as a whole: one input comes back unchanged, and
    the order of the inputs does not matter. */
module CompositeProperties {
  import opened Pixels
  import opened Compositor

  /** Compositing a single image gives back its pixels: the target rectangle is
      the image's own extent and every channel is divided by one. */
  lemma {:induction false} CompositeSingle(img: Image)
    requires Valid(img)
    ensures CompositeImage([img]).Ok?
    ensures var r := CompositeImage([img]).value;
      r.width == img.width && r.height == img.height &&
      forall i: nat, j: nat, k: nat :: i < r.width && j < r.height && k < 4 ==>
        Channel(r, i, j, k) == Channel(img, i, j, k)
  {
    var r := CompositeImage([img]).value;
    forall i: nat, j: nat, k: nat | i < r.width && j < r.height && k < 4
      ensures Channel(r, i, j, k) == Channel(img, i, j, k)
    {
      CompositePixel([img], i, j, k);
      assert [img][..0] == [];
    }
  }

  /** Removing the input at position m takes exactly its byte out of the sum. */
  lemma {:induction false} SumWithout(images: seq<Image>, m: nat, i: nat, j: nat, k: nat)
    requires AllValid(images) && AllCover(images, i, j) && k < 4 && m < |images|
    ensures AllValid(images[..m] + images[m + 1..]) && AllCover(images[..m] + images[m + 1..], i, j)
    ensures SumChannel(images, i, j, k)
         == SumChannel(images[..m] + images[m + 1..], i, j, k) + Channel(images[m], i, j, k) as nat
  {
    var rest := images[..m] + images[m + 1..];
    assert forall img <- rest :: img in images;
    var n := |images| - 1;
    if m < n {
      var init := images[..n];
      SumWithout(init, m, i, j, k);
      assert init[..m] + init[m + 1..] == rest[..n - 1];
      assert rest[n - 1] == images[n];
    } else {
      assert rest == images[..n];
    }
  }

  /** The channel sum depends only on the multiset of inputs. */
  lemma {:induction false} SumPermutation(s: seq<Image>, t: seq<Image>, i: nat, j: nat, k: nat)
    requires multiset(s) == multiset(t)
    requires AllValid(s) && AllCover(s, i, j) && k < 4
    ensures AllValid(t) && AllCover(t, i, j)
    ensures SumChannel(s, i, j, k) == SumChannel(t, i, j, k)
  {
    assert forall img <- t :: img in multiset(s);
    if |s| > 0 {
      var n := |s| - 1;
      var last := s[n];
      assert last in multiset(t);
      var m :| 0 <= m < |t| && t[m] == last;
      var rest := t[..m] + t[m + 1..];
      RemoveMatching(s, t, m);
      SumWithout(t, m, i, j, k);
      assert forall img <- s[..n] :: img in s;
      SumPermutation(s[..n], rest, i, j, k);
      calc {
        SumChannel(s, i, j, k);
        SumChannel(s[..n], i, j, k) + Channel(last, i, j, k) as nat;
        SumChannel(rest, i, j, k) + Channel(last, i, j, k) as nat;
        SumChannel(t, i, j, k);
      }
    }
  }

  /** Taking the last element off one sequence and a copy of it off a
      permutation of it leaves two permutations of each other. */
  lemma {:induction false} RemoveMatching<T>(s: seq<T>, t: seq<T>, m: nat)
    requires multiset(s) == multiset(t) && |s| > 0 && m < |t| && t[m] == s[|s| - 1]
    ensures multiset(s[..|s| - 1]) == multiset(t[..m] + t[m + 1..])
  {
    var n, last := |s| - 1, s[|s| - 1];
    assert t == t[..m] + [t[m]] + t[m + 1..];
    assert s == s[..n] + [last];
    assert multiset(t) == multiset(t[..m]) + multiset{last} + multiset(t[m + 1..]);
    assert multiset(t[..m] + t[m + 1..]) == multiset(t[..m]) + multiset(t[m + 1..]);
    assert multiset(s) == multiset(s[..n]) + multiset{last};
    assert multiset(s[..n]) == multiset(s) - multiset{last};
    assert multiset(t[..m] + t[m + 1..]) == multiset(t) - multiset{last};
  }

  /** The target rectangle depends only on the multiset of inputs. */
  lemma {:induction false} TargetPermutation(s: seq<Image>, t: seq<Image>)
    requires multiset(s) == multiset(t)
    ensures TargetRect(s) == TargetRect(t)
  {
    assert forall img :: img in s <==> img in t by {
      forall img ensures img in s <==> img in t {
        assert img in s <==> img in multiset(s);
        assert img in t <==> img in multiset(t);
      }
    }
    assert |s| == |multiset(s)| == |t|;
  }

  /** Permuting the inputs leaves the composite unchanged: the same rectangle,
      and every channel mean is taken over the same multiset of bytes. */
  lemma {:induction false} CompositePermutation(s: seq<Image>, t: seq<Image>)
    requires multiset(s) == multiset(t) && AllValid(s)
    ensures AllValid(t)
    ensures CompositeImage(s) == CompositeImage(t)
  {
    assert forall img <- t :: img in multiset(s);
    assert |s| == |multiset(s)| == |t|;
    TargetPermutation(s, t);
    if |s| > 0 {
      var rect := TargetRect(s).value;
      var w, h := rect.width, rect.height;
      TargetBytesPermutation(s, t, w, h);
    }
  }

  lemma {:induction false} TargetBytesPermutation(s: seq<Image>, t: seq<Image>, w: nat, h: nat)
    requires multiset(s) == multiset(t) && |s| > 0 && AllValid(s) && AllValid(t)
    requires forall img <- s :: w <= img.width && h <= img.height
    requires forall img <- t :: w <= img.width && h <= img.height
    ensures TargetBytes(s, w, h) == TargetBytes(t, w, h)
  {
    assert |s| == |multiset(s)| == |t|;
    var a, b := TargetBytes(s, w, h), TargetBytes(t, w, h);
    forall idx | 0 <= idx < |a|
      ensures a[idx] == b[idx]
    {
      TargetBytePermutation(s, t, w, h, idx);
    }
  }

  lemma {:induction false} TargetBytePermutation(s: seq<Image>, t: seq<Image>, w: nat, h: nat, idx: nat)
    requires multiset(s) == multiset(t) && |s| > 0 && AllValid(s) && AllValid(t)
    requires forall img <- s :: w <= img.width && h <= img.height
    requires forall img <- t :: w <= img.width && h <= img.height
    requires idx < 4 * w * h
    ensures TargetByte(s, w, h, idx) == TargetByte(t, w, h, idx)
  {
    assert |s| == |multiset(s)| == |t|;
    var stride := 4 * w;
    IndexDecomposes(stride, h, idx);
    var i, j, k := ColumnOf(stride, idx), RowOf(stride, idx), ChannelOf(stride, idx);
    SumPermutation(s, t, i, j, k);
  }

  /** Two inputs: each channel is the sum of the two bytes halved, rounded
      down; a white and a black pixel give 127. */
  lemma {:induction false} CompositeOfTwo(x: Image, y: Image, i: nat, j: nat, k: nat)
    requires Valid(x) && Valid(y) && Covers(x, i, j) && Covers(y, i, j) && k < 4
    ensures MeanChannel([x, y], i, j, k) as int == (Channel(x, i, j, k) as int + Channel(y, i, j, k) as int) / 2
    ensures Channel(x, i, j, k) == 255 && Channel(y, i, j, k) == 0 ==> MeanChannel([x, y], i, j, k) == 127
  {
    var cx, cy := Channel(x, i, j, k) as nat, Channel(y, i, j, k) as nat;
    assert [x, y][..1] == [x];
    assert [x][..0] == [];
    assert SumChannel([x], i, j, k) == cx;
    assert SumChannel([x, y], i, j, k) == cx + cy;
    TruncatedMean(cx + cy, 2);
  }
}
