# ponyban / Chocobun core, modelled in Dafny

This project models the parts of the ponyban Sokoban front end, and of the
Java port of its Chocobun engine, that hold real logic:

- **The run-length codec of `RLE.java`.**
  - `compress`: each run of one character becomes a count and the character.
  - `multiPassCompress`, with its helper `multPassCompress_pass`: repeated blocks become `k(block)`, and the shorter of two pass orders wins.
  - `decompress` / `decompress_recursive`: they read counts, characters and nested groups.
- **The listener registry of `EventDispatcher`.** A list of listeners, known by address, that never holds one twice.
- **The shared texture cache of `TextureResource`.** It maps a file name to a loaded texture, keeps a list of every user, and erases a texture's entry when its last user goes. `ponyban/AnimatedSprite.cpp` keeps the same two statics with the same code for its sprites.
- **The sprite-sheet frame logic of `AnimatedSprite`.**
  - The frame number picks a cell of the sheet (row = frame div columns, column = frame mod columns).
  - Playback consumes elapsed time one frame delay at a time and wraps to frame 0 after the last frame.
  - Play/stop flags, the frame delay and the tile position.
  - Both copies, `ponyban/AnimatedSprite.cpp` and `ponyban-cpp/ponyban/AnimatedSprite.cpp`, are covered. In `ponyban-cpp` the same frame logic sits at lines 27-33 and 43-131.
- **The button table of `Overlay`.** Buttons are created only under a free name and only when their image loads, and destroyed by name.

Each operation that works by a loop is a Dafny `method` with the same loop and its invariants. It is proved against a specification function on the inputs or the old state, and the properties the code promises are proved about those functions as lemmas. Objects whose fields the code updates are classes:

- `EventDispatcher`;
- `TextureCache`, holding the two statics;
- `TextureResource`;
- `AnimatedSprite`;
- `Overlay`;
- `Builder`, the `StringBuilder` that `decompress_recursive` rewrites in place.

Calls into SFML are parameters:

- whether an image file loads is a boolean;
- a loaded image's size is a pair of numbers.

Time is a whole number of microseconds, as `sf::Time` stores it.

Files:

- `rle_text.dfy`: decimal counts, the decoder's digit loop and repetition.
- `rle_compress.dfy`: `compress`.
- `rle_multipass.dfy`: `multiPassCompress` and `multPassCompress_pass`.
- `rle_decompress.dfy`: `decompress` and the round trip.
- `lists.dfy`: vector scan and erase.
- `event_dispatcher.dfy`
- `texture_cache.dfy`
- `animated_sprite.dfy`
- `overlay.dfy`

Where this README says `RLE.java`, the path is `ponyban-java/ponyban/src/com/thecomet/chocobun/RLE.java`.

## Model

| member | source | states |
|---|---|---|
| RleText.DecimalReadBack | ponyban-java/ponyban/src/com/thecomet/chocobun/RLE.java:215-223 | a count printed in decimal and read back digit by digit in base ten gives the same number, for every count |
| RleText.AsWrittenReadBack | ponyban-java/ponyban/src/com/thecomet/chocobun/RLE.java:215-223 | the digit loop as written reads every printed count up to 99 back correctly |
| RleText.AsWrittenMisreads | ponyban-java/ponyban/src/com/thecomet/chocobun/RLE.java:215-222 | the digit loop as written reads "123" as 1203 and "100" as 1000 |
| RleCompress.Compress | ponyban-java/ponyban/src/com/thecomet/chocobun/RLE.java:66-85 | compress returns the run-length encoding of its input: the input cut into maximal runs, each written as its length (only when at least 2) followed by its character |
| RleCompress.RunLengthRun | ponyban-java/ponyban/src/com/thecomet/chocobun/RLE.java:74-75 | the inner scan stops at the end of the run: every character it passes equals the first, and the one it stops at differs |
| RleCompress.RunsMaximal | ponyban-java/ponyban/src/com/thecomet/chocobun/RLE.java:75 | the runs compress writes are maximal: none is empty and neighbouring runs hold different characters |
| RleCompress.RunsExpand | ponyban-java/ponyban/src/com/thecomet/chocobun/RLE.java:71-83 | the runs compress reads, written out again, give back the input |
| RleCompress.RunsUnique | ponyban-java/ponyban/src/com/thecomet/chocobun/RLE.java:71-83 | a sequence of maximal runs is the only way to cut its own expansion into maximal runs |
| RleCompress.CompressEmpty | ponyban-java/ponyban/src/com/thecomet/chocobun/RLE.java:69-71 | compressing the empty string gives the empty string |
| RleCompress.CompressNoLonger | ponyban-java/ponyban/src/com/thecomet/chocobun/RLE.java:78-81 | compress never makes its input longer |
| RleCompress.SingleRun | ponyban-java/ponyban/src/com/thecomet/chocobun/RLE.java:74-81 | n >= 1 copies of one character compress to the single item for that run |
| RleCompress.CompressDocExample | ponyban-java/ponyban/src/com/thecomet/chocobun/RLE.java:38-40 | compress("####$$####$$####$$####$$") is "4#2$4#2$4#2$4#2$" |
| RleMultiPass.SkipCopies | ponyban-java/ponyban/src/com/thecomet/chocobun/RLE.java:150-159 | the inner loop of a pass stops where the back-to-back copies of the compare block end |
| RleMultiPass.EndOfCopiesIsBlocks | ponyban-java/ponyban/src/com/thecomet/chocobun/RLE.java:150-159 | the copies skipped take up exactly a whole number of blocks |
| RleMultiPass.CountWritten | ponyban-java/ponyban/src/com/thecomet/chocobun/RLE.java:162-164 | the count written, (pos2 - pos) / compareSize, is the number of copies, and a count is written exactly when there are two or more |
| RleMultiPass.AppendItem | ponyban-java/ponyban/src/com/thecomet/chocobun/RLE.java:161-176 | a pass appends k(block) for k >= 2 copies (kc when the block is one character c), and the block itself otherwise |
| RleMultiPass.PassBlock | ponyban-java/ponyban/src/com/thecomet/chocobun/RLE.java:141-178 | one turn of the pass loop moves forward, and what it appends plus what is left to encode spells the pass's whole result |
| RleMultiPass.MultPassCompressPass | ponyban-java/ponyban/src/com/thecomet/chocobun/RLE.java:133-182 | a pass returns the encoding that replaces each run of back-to-back copies of a compareSize block, left to right, and copies a shorter tail as it is |
| RleMultiPass.PassOneIsCompress | ponyban-java/ponyban/src/com/thecomet/chocobun/RLE.java:133-182 | a pass with compare size 1 returns exactly what compress returns |
| RleMultiPass.MultiPassCompress | ponyban-java/ponyban/src/com/thecomet/chocobun/RLE.java:97-122 | the result is MultiPassEncoding(str): the outside-in candidate (passes 1 up to length/2 - 1) or the inside-out one (passes length/2 down to 1); it is no longer than either; a tie gives the inside-out one; an input shorter than 2 comes back unchanged |
| RleMultiPass.WidePass | ponyban-java/ponyban/src/com/thecomet/chocobun/RLE.java:141-178 | a pass whose compare size is more than half the text finds no copies and returns the text unchanged |
| RleMultiPass.NoCopiesPass | ponyban-java/ponyban/src/com/thecomet/chocobun/RLE.java:141-178 | a pass over text where no block is followed by a copy of itself returns the text unchanged |
| RleMultiPass.PassRepeated | ponyban-java/ponyban/src/com/thecomet/chocobun/RLE.java:150-170 | k >= 2 back-to-back copies of a block of two or more characters, passed with the block's length as compare size, become k(block) |
| RleMultiPass.ShortRunsKeepLength | ponyban-java/ponyban/src/com/thecomet/chocobun/RLE.java:66-85 | a compare-size-1 pass over text where no character stands three times in a row keeps its length |
| RleMultiPass.DocOutsideIn | ponyban-java/ponyban/src/com/thecomet/chocobun/RLE.java:108-111 | on "####$$####$$####$$####$$" the outside-in passes give "4(4#2$)" |
| RleMultiPass.DocInsideOut | ponyban-java/ponyban/src/com/thecomet/chocobun/RLE.java:112-115 | on the same text the inside-out passes give a text of 17 characters |
| RleMultiPass.MultiPassDocExample | ponyban-java/ponyban/src/com/thecomet/chocobun/RLE.java:42-46 | multiPassCompress("####$$####$$####$$####$$") is "4(4#2$)", the example in the class comment |
| RleDecompress.ReadCount | ponyban-java/ponyban/src/com/thecomet/chocobun/RLE.java:215-223 | the digit loop stops at the first non-digit, reports whether it read any digit, and accumulates the count of those digits under the chosen reading |
| RleDecompress.AppendCopies | ponyban-java/ponyban/src/com/thecomet/chocobun/RLE.java:236-238 | the expansion loop appends exactly count copies of the expansion |
| RleDecompress.DecodeItem | ponyban-java/ponyban/src/com/thecomet/chocobun/RLE.java:214-239 | one turn of the decoder reads the count, the character or the nested group, appends the copies and moves past the item, or fails when the count runs to the end of the text |
| RleDecompress.DecompressRecursive | ponyban-java/ponyban/src/com/thecomet/chocobun/RLE.java:204-244 | the builder ends up holding the decoded text and the result is one past the position where decoding stopped; when a count runs off the end the exception leaves the builder untouched |
| RleDecompress.Decompress | ponyban-java/ponyban/src/com/thecomet/chocobun/RLE.java:190-194 | decompress returns the decoding of its input, or the index exception |
| RleDecompress.ItemDecodes | ponyban-java/ponyban/src/com/thecomet/chocobun/RLE.java:215-239 | the code compress writes for one run decodes back to that run and moves past its code |
| RleDecompress.RoundTrip | ponyban-java/ponyban/src/com/thecomet/chocobun/RLE.java:190-244 | decompress(compress(s)) == s for every s without digits or parentheses, under decimal counts, and under the digit loop as written when no run is longer than 99 |
| RleDecompress.PlainDecodes | ponyban-java/ponyban/src/com/thecomet/chocobun/RLE.java:223-233 | text without digits or parentheses decodes to itself |
| RleDecompress.DecodesConcat | ponyban-java/ponyban/src/com/thecomet/chocobun/RLE.java:207-240 | two texts that each decode to their end decode, one after the other, to their expansions one after the other |
| RleDecompress.CloseStopsDecoding | ponyban-java/ponyban/src/com/thecomet/chocobun/RLE.java:212 | for any text u that decodes to its end, u followed by ')' and anything at all decodes to what u decodes to: a top-level ')' ends decoding and the rest is dropped |
| RleDecompress.TrailingCountFails | ponyban-java/ponyban/src/com/thecomet/chocobun/RLE.java:216 | any text that decodes to its end, followed by one or more digits, makes decompress throw the index exception |
| RleDecompress.GroupDecodes | ponyban-java/ponyban/src/com/thecomet/chocobun/RLE.java:215-231 | for any count digits d (none meaning 1) and any inner text u that decodes to its end, nested groups included, d(u) expands to the count's copies of what u decodes to, and decoding resumes just after the matching ')' |
| RleDecompress.NestedGroupDecodes | ponyban-java/ponyban/src/com/thecomet/chocobun/RLE.java:227-231 | "2(2(ab)c)", a group inside a group, decompresses to "ababcababc" |
| RleDecompress.MultiPassDocDecodes | ponyban-java/ponyban/src/com/thecomet/chocobun/RLE.java:44-46 | "4(4#2$)" decompresses to four copies of "####$$" |
| RleDecompress.AsWrittenBreaksRoundTrip | ponyban-java/ponyban/src/com/thecomet/chocobun/RLE.java:215-222 | a run of 100 'a' compresses to "100a", which the digit loop as written decodes to 1000 'a', so the round trip fails |
| RleDecompress.DecimalRoundTripsHundred | ponyban-java/ponyban/src/com/thecomet/chocobun/RLE.java:215-223 | with the count read in base ten the same run of 100 'a' round-trips |
| Lists.IndexOf | src/EventDispatcher.cpp:50-51 | a front-to-back scan stops at the first equal element, or at the end exactly when there is none |
| Lists.RemoveAtIndex | src/EventDispatcher.cpp:53 | erasing a position keeps the elements before it and shifts the later ones down by one |
| Lists.RemoveAtDistinct | src/EventDispatcher.cpp:53 | erasing one element from a list without repeats takes away that element and only it (as multisets too) and leaves no repeats |
| Lists.AppendDistinct | src/EventDispatcher.cpp:43 | appending an absent element keeps the list free of repeats |
| Events.RegisterDistinct | src/EventDispatcher.cpp:39-45 | registering keeps the list free of repeats; afterwards the registered listeners are the old ones plus the new one |
| Events.UnregisterDistinct | src/EventDispatcher.cpp:48-57 | unregistering keeps the list free of repeats and removes that listener and no other |
| Events.RegisterThenUnregister | src/EventDispatcher.cpp:39-57 | registering a listener that was absent and unregistering it restores the original list |
| Events.UnregisterThenRegister | src/EventDispatcher.cpp:39-57 | unregistering a present listener and registering it again moves it to the end, keeping the others in order |
| Events.EventDispatcher.RegisterListener | src/EventDispatcher.cpp:39-45 | returns true exactly when the listener was absent; a present listener leaves the list unchanged, an absent one is appended; no listener is ever listed twice |
| Events.EventDispatcher.UnregisterListener | src/EventDispatcher.cpp:48-57 | returns true exactly when the listener was present; its entry is erased and the others keep their order; an absent listener leaves the list unchanged |
| Textures.EraseValueAtMostOne | ponyban/TextureResource.cpp:56-65 | erasing a texture from a map that files no texture twice removes at most one entry, keeps every other entry and leaves none holding the texture |
| Textures.EraseFound | ponyban/TextureResource.cpp:58-63 | erasing the entry the scan finds is erasing every entry holding that texture |
| Textures.InsertNew | ponyban/TextureResource.cpp:82 | filing a new texture under a new name keeps the map free of repeated textures |
| Textures.TextureCache.CreateResource | ponyban/TextureResource.cpp:29-33 | a new user holds no texture and is appended to the user list; the map is unchanged |
| Textures.TextureCache.LoadTextureFromFile | ponyban/TextureResource.cpp:70-89 | a cached file name reuses its texture and adds no entry; a failed load of a new name returns false and changes no entry; a successful load adds exactly one entry, under that name, holding a new texture of the loaded size |
| Textures.TextureCache.Unlist | ponyban/TextureResource.cpp:41-51 | the erase-while-scanning loop removes the user from the list, keeps the others in order, and decides to erase exactly when no remaining user holds the same texture |
| Textures.TextureCache.EraseTexture | ponyban/TextureResource.cpp:54-66 | the map loop erases the entry holding the texture, if any, and nothing else |
| Textures.TextureCache.Destroy | ponyban/TextureResource.cpp:36-67 | the destroyed user leaves the list; its texture's entry is erased when no other listed user holds that texture, and the map is untouched otherwise |
| Animation.FrameRectInSheet | ponyban/AnimatedSprite.cpp:157-163 | the cell of every frame below splitX * splitY lies inside the sheet |
| Animation.FrameRectsDistinct | ponyban/AnimatedSprite.cpp:157-163 | different frames show different cells when cells are at least one pixel in size |
| Animation.RowIsQuotient | ponyban/AnimatedSprite.cpp:158-159 | the row search of setFrame ends at frame div splitX and leaves frame mod splitX as the column |
| Animation.AdvanceIsModulo | ponyban/AnimatedSprite.cpp:148 | k frame steps from a valid frame reach (frame + k) mod (frameMax + 1), so the frame stays within 0..frameMax |
| Animation.StepsCount | ponyban/AnimatedSprite.cpp:145-150 | the time loop takes exactly as many delays as fit while more than one delay is left |
| Animation.AnimatedSprite.constructor | ponyban/AnimatedSprite.cpp:30-38 | a new sprite is not playing, has the 15 ms default delay, is at tile (0, 0), holds no texture and is appended to the cache's user list |
| Animation.AnimatedSprite.Destroy | ponyban/AnimatedSprite.cpp:41-70 | the sprite leaves the user list, and its texture's entry is erased only when no other user holds it |
| Animation.AnimatedSprite.LoadFromFile | ponyban/AnimatedSprite.cpp:73-105 | the texture is reused, loaded or missing as in the cache; on success the sheet is cut into splitX by splitY cells of texture size div split, frameMax is splitX * splitY - 1 for a frame count of 0 and frameCount - 1 otherwise, and frame 0 is shown; on failure nothing about the frames changes |
| Animation.AnimatedSprite.CutSheet | ponyban/AnimatedSprite.cpp:95-102 | the frame-max rule, the cell size and frame 0 shown, with everything else unchanged |
| Animation.AnimatedSprite.SetFrame | ponyban/AnimatedSprite.cpp:154-166 | a frame past frameMax changes nothing; otherwise the frame becomes current and the shown cell is column frame mod splitX, row frame div splitX, scaled by the cell size |
| Animation.AnimatedSprite.UpdateFrame | ponyban/AnimatedSprite.cpp:141-151 | a stopped sprite is unchanged; a playing one takes k delays from the accumulated time, leaving at most one delay, advances k frames with wrap-around to 0, shows the last frame's cell, and keeps its frame within 0..frameMax |
| Animation.AnimatedSprite.Play | ponyban/AnimatedSprite.cpp:169-172 | play sets the playing flag and changes nothing else |
| Animation.AnimatedSprite.PlayRange | ponyban/AnimatedSprite.cpp:173-177 | play with a range sets the playing flag and changes nothing else, whether or not the range lies inside the sheet |
| Animation.AnimatedSprite.Stop | ponyban/AnimatedSprite.cpp:180-183 | stop clears the playing flag and changes nothing else |
| Animation.AnimatedSprite.SetFrameDelay | ponyban/AnimatedSprite.cpp:186-190 | a delay of zero or less is ignored, so the delay stays positive; a positive one replaces it |
| Animation.AnimatedSprite.SetTilePosition | ponyban/AnimatedSprite.cpp:115-120 | records the tile position and changes nothing else |
| Animation.AnimatedSprite.GetTilePositionX | ponyban/AnimatedSprite.cpp:123-126 | returns the column last given to setTilePosition |
| Animation.AnimatedSprite.GetTilePositionY | ponyban/AnimatedSprite.cpp:129-132 | returns the row last given to setTilePosition |
| Overlays.Overlay.constructor | ponyban/Overlay.cpp:25-30 | a new overlay has no buttons, reference resolution (1, 1) and the given boundaries |
| Overlays.Overlay.CreateButton | ponyban/Overlay.cpp:40-56 | succeeds exactly when the name is free and the image loads; then it adds exactly one new button under that name; otherwise the table is unchanged |
| Overlays.Overlay.DestroyButton | ponyban/Overlay.cpp:59-66 | an unknown name changes nothing; a known name loses its entry and every other entry stays |
| Overlays.CreateThenDestroy | ponyban/Overlay.cpp:40-66 | creating a button under a free name and destroying it restores the table |
| Overlays.DestroyOnlyThat | ponyban/Overlay.cpp:59-66 | destroying leaves no button under that name and every other button where it was |

## Left out

- RleDecompress.ReadCount: the count and the digit multiplier are unbounded integers. In Java, `expansionCount` and `digit` are 32-bit `int`s that wrap.
  - As written, the multiplier is 10^k after k digits, so five digits already overflow: "10000" accumulates 1 x 10 x 100 x 1000 x 10000 = 10^10, which Java wraps to 1410065408. Compress writes such a count for any run of 10000 or more characters.
  - Read in base ten, a count overflows from ten digits (2147483648 and above). Decompress accepts any text, so "99999999999a" overflows. Compress never writes such a count, because a run is no longer than a Java string.
  - Neither overflow is modelled.
- RleMultiPass.MultiPassCompress: `decompress(multiPassCompress(s)) == s` is not claimed in general. A later compare-size-1 pass re-encodes the digits of counts that earlier passes wrote; for example, a count `11` becomes `21`. The class comment's example is proved on both sides (RleMultiPass.MultiPassDocExample, RleDecompress.MultiPassDocDecodes).
- Characters are Dafny `char`s, one per Unicode scalar value. A Java `String` is a sequence of UTF-16 code units, and the RLE code compares and counts code units. A character outside the Basic Multilingual Plane is two units: Java's `compress("😀😀")` sees four units with no two neighbours equal and returns the text unchanged, while the model writes "2😀". Level text is ASCII, where the two agree.
- The decoder's choice of count reading is a parameter (`CountRule`). `AsWritten` is the code. `Decimal` is the evidently intended base ten reading (see Findings).
- Textures.TextureCache.LoadTextureFromFile: on success the C++ falls off the end of a `bool` function without a `return`, which is undefined behaviour. It is modelled as returning true, as the header documents. The same holds for Overlays.Overlay.CreateButton.
- Textures.TextureCache.LoadTextureFromFile: a failed load leaves the user holding the address of a freed texture. It is modelled as holding no texture.
- Deleting textures and buttons, and the console messages, are left out. They are memory management and output.
- Animation.AnimatedSprite.SetFrame: it requires at least one column whenever the frame is in range. With zero columns, the row search in the source never ends. Before any sheet is loaded, the split is zero.
- Animation.AnimatedSprite.LoadFromFile: it requires splitX and splitY of at least 1 when the file is cached or loads, because the source then divides the texture size by them. A failed load of a new file returns false before dividing, with any split.
- Animation.AnimatedSprite.constructor: both constructors leave the `unsigned long` fields `m_FrameMax` and `m_CurrentFrame` uninitialised. The model starts them at 0. `m_TimePassed`, `m_Split` and `m_Size` are SFML values whose default constructors make them zero, as modelled.
- Integer wrap-around in setFrame is not modelled. All numbers are unbounded naturals. In the source:
  - `(r.top + 1) * m_Split.x` in the row search is computed in 32-bit `unsigned` arithmetic, while the frame is an `unsigned long`; for a frame of 2^32 or more the product wraps before it passes the frame;
  - `r.left *= m_Size.x` and `r.top *= m_Size.y` store products into the `int` fields of an `sf::IntRect`, which overflow on a large enough sheet.
- The ponyban-cpp sprite inherits its texture from `TextureResource`; the ponyban sprite keeps its own copy of the statics. Both are modelled as a sprite owning one user of a `TextureCache`.
- SFML is left out, because it is a foreign library: texture and image loading, `setSmooth`, `setTexture`, `setTextureRect` on the drawn sprite, drawing, `setPosition`, `setScale`, and the pixel position `x * tileSize` in `setTilePosition` (floating point).
- `EventDispatcher::processEventLoop`, and the allocation of `sf::Event` in the constructor and destructor: window event plumbing.
- `Overlay::setReferenceResolution` and `Overlay::render`: drawing. The `Overlay` destructor only frees memory.
- Map iteration order in the texture destructor is not modelled. The key-set loop takes the keys in any order. No texture is filed under two names, so the entry erased is the same in every order.
- The Chocobun puzzle engine (`Collection`, `CollectionParser`, `LevelListener`, `Config`, `ChocobunInterface`) is not part of this model: only declarations without bodies exist for it.
- `Collection.java` is not part of this model; it is an empty constructor.
- There is no concurrency in the modelled code.

## Findings

| source | as written | input that shows it | evidently intended | confidence | as-written member | corrected member |
|---|---|---|---|---|---|---|
| ponyban-java/ponyban/src/com/thecomet/chocobun/RLE.java:215-222 | the digit loop multiplies the accumulated count by a growing power of ten (1, 10, 100, ...) before adding each digit, so "123" reads as 1203 | a run of 100 'a': compress writes "100a", and decompress returns 1000 'a' | read the count in base ten (multiply by 10 each digit), so that decompress(compress(s)) == s for every run length | not executed | RleDecompress.AsWrittenBreaksRoundTrip | RleDecompress.RoundTrip |
