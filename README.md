# Field validation for Authors and Posts

This project models the validation rules of a small Flask/SQLAlchemy application that stores two kinds of entity.

- An **Author** has a name and a phone number.
- A **Post** has a title, content, a summary and a category.

Each validated field has an attribute-set hook (`@validates`). Python runs the hook whenever the field is assigned. The hook gets the candidate value and either returns it unchanged, in which case it is written to the field, or raises `ValueError` with a fixed message, in which case the field keeps its old value. The name hook also queries the store: a name that an already stored Author has is refused.

The model has four modules:

- `Outcomes` (`outcomes.dfy`): `Option` stands for a value that may be Python's `None`. `Outcome` stands for one hook's result: `Accepted(value)` or `Rejected(message)`, where `message` is the `ValueError` text.
- `PyStr` (`pystr.dfy`): the parts of Python's `str` that the rules use. These are `str.isspace`, `str.strip()`, a full match of `\d{n}`, and the substring test `w in s`. `Strip`'s contract says when its result is empty. The `\d{n}` match and `w in s` each have a lemma that links them to a plain definition.
- `AuthorModel` (`author.dfy`): `validate_name` and `validate_phone` as functions. An `Author` class has guarded setters. An `AuthorStore` class holds the names of the stored Authors. Its invariant is that those names are non-blank and pairwise distinct.
- `PostModel` (`post.dfy`): the four Post rules as functions, and a `Post` class with guarded setters.

Each setter returns exactly what its rule function returns. It writes the field only when the rule accepts the candidate, and then it writes the candidate unchanged. Each class has a `Valid()` invariant saying that every written field holds a value its rule accepts, and every setter preserves it.

Two facts about the code shape the model:

- `phone_number`, `content`, `category` and `summary` are nullable columns (server/models.py:13, 45-47). A hook runs only when its field is assigned, so a field that is never assigned stays `None` (NULL). Both the classes and `AuthorModel.AuthorStore.Create` allow for this. `Create` can leave out the phone number, and the Author is then stored with a NULL phone.
- Python's `len` counts code points. `|s|` counts the characters of a Dafny `string`, and a Dafny character is a Unicode scalar value, so `|s|` equals `len(s)` for every string that has no lone surrogate.

## Model

| member | source | states |
|---|---|---|
| PyStr.LStrip | server/models.py:20 | the result is a suffix of the input; everything removed is white space; the result does not start with white space |
| PyStr.RStrip | server/models.py:20 | the result is a prefix of the input; everything removed is white space; the result does not end with white space |
| PyStr.Strip | server/models.py:20 | `s.strip() == ""` exactly when every character of `s` is white space; a non-empty result has no white space at either end |
| PyStr.FullMatchDigitsIff | server/models.py:32 | `re.fullmatch(r"\d{n}", s)` succeeds exactly when `s` has `n` characters and every one is a digit |
| PyStr.ContainsIffOccurs | server/models.py:76 | Python's `w in s` holds exactly when `w` occurs in `s` as a contiguous slice at some index |
| PyStr.NotContainedWithoutFirstChar | server/models.py:76 | a non-empty `w` is not in a string that lacks `w`'s first character |
| AuthorModel.ValidateName | server/models.py:18-27 | accepts exactly a present, non-blank name that no stored Author has (exact, case-sensitive equality); returns the candidate unchanged; a missing or blank name gets "Author must have a name", a taken name gets "Author name must be unique" |
| AuthorModel.ValidatePhone | server/models.py:30-34 | accepts exactly a present string of exactly 10 characters that are all digits; returns it unchanged; otherwise rejects with "Phone number must be exactly 10 digits" |
| AuthorModel.BlankNameRejected | server/models.py:20-21 | `None`, the empty string and any whitespace-only string are refused as a missing name, whatever is stored |
| AuthorModel.NameUniquenessExamples | server/models.py:24-26 | a stored name is refused a second time; the same name in other letter case, or with leading white space, is accepted |
| AuthorModel.PhoneExamples | server/models.py:32-33 | "0123456789" is accepted; "123", "12345678901", "123abc4567", "" and `None` are refused |
| AuthorModel.AcceptedNameKeepsStoreValid | server/models.py:24-27 | when each accepted name is stored before the next check, the stored names stay non-blank and pairwise distinct |
| AuthorModel.StaleCheckAdmitsDuplicate | server/models.py:24 | two Authors checked against the same store, before either is stored, both pass with the same name, and storing both breaks uniqueness |
| AuthorModel.Author.SetName | server/models.py:18-27 | `author.name = candidate` returns the rule's outcome; the field becomes the candidate on acceptance and is unchanged on rejection; the Author invariant is kept |
| AuthorModel.Author.SetPhoneNumber | server/models.py:30-34 | `author.phone_number = candidate` returns the rule's outcome; the field becomes the candidate on acceptance and is unchanged on rejection; the Author invariant is kept |
| AuthorModel.StaleCheckThroughAuthors | server/models.py:18-27 | two Author objects whose names are checked against the same stored names both accept the same name and both hold it, so storing both would break uniqueness |
| AuthorModel.AuthorStore.Create | server/models.py:18-34 | `Author(name=..., phone_number=...)` checks the name against the store first and then, if the keyword is given, the phone; on any rejection the store is unchanged; on success a fresh Author holding the name and the phone (NULL when the keyword is left out) is stored, and the stored names stay distinct and non-blank |
| AuthorModel.NameReservedWithoutPhone | server/models.py:13-27 | an Author stored without a phone number is stored with a NULL phone and still holds its name, so a later Author with that name is refused as not unique |
| PostModel.ValidateContent | server/models.py:52-56 | accepts exactly a present string of at least 250 characters and returns it unchanged; otherwise rejects with "Post content must be at least 250 characters" |
| PostModel.ValidateSummary | server/models.py:59-63 | accepts exactly `None` or a string of at most 250 characters (the empty string included) and returns it unchanged; otherwise rejects with "Summary must be 250 characters or less" |
| PostModel.ValidateCategory | server/models.py:66-70 | accepts exactly "Fiction" and "Non-Fiction" and returns the value unchanged; anything else, `None` included, is rejected with "Category must be Fiction or Non-Fiction" |
| PostModel.AnyContainedIff | server/models.py:76 | the left-to-right search over the phrase list, asking of each phrase whether it is in the title, succeeds exactly when some phrase occurs in the title at some index |
| PostModel.ValidateTitle | server/models.py:73-78 | accepts exactly a title in which one of "Won't Believe", "Secret", "Top", "Guess" occurs as a contiguous, case-sensitive substring, and returns it unchanged; otherwise rejects with "Title must be clickbait-y" |
| PostModel.LengthBoundaries | server/models.py:54-62 | content of 249 characters is refused and 250 accepted; a summary of 250 is accepted and 251 refused; missing or empty content is refused; a missing or empty summary is accepted |
| PostModel.CategoryExamples | server/models.py:68-69 | "Fiction" and "Non-Fiction" are accepted; "fiction", "" and `None` are refused |
| PostModel.TitleExamples | server/models.py:75-77 | "Top 10 facts" and "You Won't Believe This" are accepted; "Ordinary news" and "top 10 facts" are refused |
| PostModel.NoPhraseWithoutInitials | server/models.py:75-77 | a title with no capital W, S, T or G is refused, because every phrase starts with one of them |
| PostModel.Post.SetTitle | server/models.py:73-78 | `post.title = candidate` returns the rule's outcome; the field becomes the candidate on acceptance and is unchanged on rejection; the Post invariant is kept |
| PostModel.Post.SetContent | server/models.py:52-56 | `post.content = candidate`, with the same guarded write and the same invariant |
| PostModel.Post.SetSummary | server/models.py:59-63 | `post.summary = candidate`, with the same guarded write and the same invariant |
| PostModel.Post.SetCategory | server/models.py:66-70 | `post.category = candidate`, with the same guarded write and the same invariant |

## Left out

- The seeding script `server/seed.py` is not modelled. Its behaviour depends on random generators whose output cannot be seen, on the application context and on the database session. Its three loops (25 Authors, 25 Posts, and the padding of each Post's content) only build values for the hooks to check.
- Database plumbing is not modelled: column types, `id`, the `created_at`/`updated_at` timestamps and `__repr__`. The database's own `unique=True` and `nullable=False` constraints are checked at commit, and they are not modelled either. For example, an Author built without a name is not stored by `Create`, because `Create` always assigns a name.
- The name store holds only the names of stored Authors, in the order they were stored. It is not a database. Renaming an Author that is already stored is not modelled.
- AuthorModel.AuthorStore.Create: always assigns the name before the phone, as `Author(name=n, phone_number=p)` does. The call `Author(phone_number=p, name=n)` runs the phone hook first. When both values are bad, that call raises the phone message, and the model does not cover it.
- AuthorModel.AuthorStore.Create: stores its Author at once. The real program can build several Authors and add them to the session only later, as the seeding script does. The name query flushes the session first, so it sees Authors that were already added. It does not see Authors that were built but not yet added, so those are not checked against each other. `AuthorModel.StaleCheckAdmitsDuplicate` and `AuthorModel.StaleCheckThroughAuthors` show what this allows.
- Concurrent writers are not modelled. Two processes can both pass the name check at server/models.py:24 before either commits. The model keeps this read-then-write race and does not fix it.
- `PyStr.IsDigit`: only '0' to '9' are digits. In Python 3, `\d` on `str` matches every Unicode decimal digit, for example Arabic-Indic digits.
- `PyStr.IsSpace`: the white-space set is Python 3's `str.isspace()` set, written out as a fixed list. Later Unicode versions might change it.
- A Python `str` may hold a lone surrogate code point, and a Dafny `string` cannot, so such strings are not modelled.
- `validate_title(None)` raises `TypeError`, not `ValueError`. The title is therefore typed as a string that is always present.
- The hooks' `key` argument is never used and is left out.
